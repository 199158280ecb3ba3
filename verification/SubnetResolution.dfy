/** The dnsrecon and nmap importers: each imported address goes to a known subnet that contains it, or
    to a /24 created for it. Parsing of addresses and CIDR texts is a parameter; the only thing
    asked of it is that it reads back the /24 texts these importers print. */
module SubnetResolution {
  import opened Tables
  import opened Stores
  import opened NmapOutput
  import opened Listings
  import opened Ipv4
  import opened Text
  import opened Version

  datatype Net = NoNet | Net(base: nat, hostBits: nat)

  datatype Address = NoAddress | Address(value: nat)

  datatype Syntax = Syntax(net: string -> Net, ip: string -> Address)

  predicate Contains(n: Net, a: nat) {
    n.Net? && InNetwork(a, n.base, n.hostBits)
  }

  /** The text of the `g`-th /24. */
  function Slash24(g: nat): string {
    Quad(g * 256) + "/24"
  }

  lemma DecimalZero()
    ensures Decimal(0) == "0"
  {
  }

  /** Its first three octets, a zero and the prefix length. */
  lemma Slash24Text(a: nat, b: nat, c: nat)
    requires a < 256 && b < 256 && c < 256
    ensures Slash24((a * 256 + b) * 256 + c) == Decimal(a) + "." + Decimal(b) + "." + Decimal(c) + ".0/24"
  {
    hide Decimal, Quad;
    QuadText(a, b, c, 0);
    DecimalZero();
    var lead := Decimal(a) + "." + Decimal(b) + "." + Decimal(c);
    assert lead + "." + "0" + "/24" == lead + ".0/24";
  }

  ghost predicate ReadsBack(syn: Syntax) {
    && (forall g: nat | g < 0x100_0000 :: syn.net(Slash24(g)) == Net(g * 256, 8))
    && (forall s: string :: syn.ip(s).Address? ==> syn.ip(s).value < ADDRESSES)
  }

  ghost predicate Covered(a: nat, subnets: map<string, SubnetRow>, syn: Syntax) {
    exists c :: c in subnets && Contains(syn.net(c), a)
  }

  /** Subnet `id` is stored and contains `a`. */
  ghost predicate HomeOf(id: nat, a: nat, subnets: map<string, SubnetRow>, syn: Syntax) {
    exists c :: c in subnets && subnets[c].id == id && Contains(syn.net(c), a)
  }

  lemma InSlash24(a: nat, g: nat)
    ensures Contains(Net(g * 256, 8), a) <==> a / 256 == g
  {
    Pow2Values();
    NetworkIsBlock(a, g * 256, 8);
    hide Pow2;
    assert Floor(g * 256, 256) == g * 256;
  }

  // ---- the search list ----

  datatype Known = Known(id: nat, cidr: string)

  ghost predicate ListsSubnets(known: seq<Known>, subnets: map<string, SubnetRow>) {
    && (forall k | k in known :: k.cidr in subnets && subnets[k.cidr].id == k.id)
    && (forall c | c in subnets :: Known(subnets[c].id, c) in known)
  }

  method SubnetContaining(known: seq<Known>, a: nat, syn: Syntax) returns (id: nat, ok: bool)
    ensures ok <==> exists k :: k in known && Contains(syn.net(k.cidr), a)
    ensures ok ==> exists i | 0 <= i < |known| ::
              known[i].id == id && Contains(syn.net(known[i].cidr), a) &&
              forall j | 0 <= j < i :: !Contains(syn.net(known[j].cidr), a)
  {
    for i := 0 to |known|
      invariant forall k | k in known[..i] :: !Contains(syn.net(k.cidr), a)
    {
      assert known[..i + 1] == known[..i] + [known[i]];
      var n := syn.net(known[i].cidr);
      if n == NoNet {
        continue;
      }
      if Contains(n, a) {
        return known[i].id, true;
      }
    }
    assert known[..|known|] == known;
    return 0, false;
  }

  /** The table changes only when no stored subnet contains `a`: then it gains that address's /24. */
  /** A subnet as these importers create it: automatic, nameless, enabled and not hidden. */
  predicate PlainSubnet(row: SubnetRow) {
    row.name == "" && row.origin == Auto && row.iface == "" && row.enabled && !row.hidden
  }

  ghost predicate Resolved(mid: map<string, SubnetRow>, now: map<string, SubnetRow>, a: nat, created: bool,
                           syn: Syntax) {
    && (created <==> !Covered(a, mid, syn))
    && (!created ==> now == mid)
    && (created ==> Slash24(a / 256) !in mid && Slash24(a / 256) in now &&
                    now == mid[Slash24(a / 256) := now[Slash24(a / 256)]] && PlainSubnet(now[Slash24(a / 256)]))
  }

  /** The containing subnet's id, or that of a fresh /24 around `a`. */
  method ResolveSubnetFor(st: Store, known: seq<Known>, a: nat, syn: Syntax)
    returns (id: nat, created: bool, known': seq<Known>)
    requires ListsSubnets(known, st.subnets) && ReadsBack(syn) && a < ADDRESSES
    modifies st
    ensures st.Snapshot() == old(st.Snapshot()).(subnets := st.subnets, nextSubnet := st.nextSubnet)
    ensures ListsSubnets(known', st.subnets) && HomeOf(id, a, st.subnets, syn)
    ensures Resolved(old(st.subnets), st.subnets, a, created, syn)
  {
    known' := known;
    var ok;
    id, ok := SubnetContaining(known, a, syn);
    if ok {
      var k :| k in known && k.id == id && Contains(syn.net(k.cidr), a);
      created := false;
      return;
    }
    InSlash24(a, a / 256);
    var cidr := Slash24(a / 256);
    assert Contains(syn.net(cidr), a);
    id, created := st.UpsertAutoSubnet(cidr, "", "");
    known' := known + [Known(id, cidr)];
    assert forall k :: k in known' <==> k in known || k == Known(id, cidr);
  }

  // ---- what a whole import creates ----

  /** The /24s of the addresses that no initially known subnet contains. */
  ghost function Fresh24s(addresses: set<nat>, before: map<string, SubnetRow>, syn: Syntax): set<nat> {
    set a | a in addresses && !Covered(a, before, syn) :: a / 256
  }

  ghost predicate InGroups(c: string, groups: set<nat>) {
    exists g :: g in groups && c == Slash24(g)
  }

  /** The table has gained exactly one subnet per group, and nothing else changed in it. */
  ghost predicate Gained(before: map<string, SubnetRow>, now: map<string, SubnetRow>, groups: set<nat>) {
    && (forall c | c in before :: c in now && now[c] == before[c])
    && (forall c | c in now && c !in before :: InGroups(c, groups) && PlainSubnet(now[c]))
    && (forall g | g in groups :: g < 0x100_0000 && Slash24(g) in now && Slash24(g) !in before)
    && |now| == |before| + |groups|
  }

  lemma CoveredNow(before: map<string, SubnetRow>, now: map<string, SubnetRow>, groups: set<nat>, a: nat, syn: Syntax)
    requires Gained(before, now, groups) && ReadsBack(syn)
    ensures Covered(a, now, syn) <==> Covered(a, before, syn) || a / 256 in groups
  {
    if Covered(a, now, syn) && !Covered(a, before, syn) {
      var c :| c in now && Contains(syn.net(c), a);
      var g :| g in groups && c == Slash24(g);
      InSlash24(a, g);
    }
    if a / 256 in groups {
      InSlash24(a, a / 256);
      assert Slash24(a / 256) in now;
    }
  }

  lemma GainedOneMore(before: map<string, SubnetRow>, mid: map<string, SubnetRow>, now: map<string, SubnetRow>,
                      addresses: set<nat>, a: nat, created: bool, syn: Syntax)
    requires ReadsBack(syn) && a < ADDRESSES && Gained(before, mid, Fresh24s(addresses, before, syn))
    requires Resolved(mid, now, a, created, syn)
    ensures Gained(before, now, Fresh24s(addresses + {a}, before, syn))
    ensures |now| == |mid| + if created then 1 else 0
    ensures forall c | c in mid :: c in now && now[c].id == mid[c].id
  {
    hide Slash24, Gained, ReadsBack;
    var old24s := Fresh24s(addresses, before, syn);
    CoveredNow(before, mid, old24s, a, syn);
    var new24s := Fresh24s(addresses + {a}, before, syn);
    if Covered(a, before, syn) {
      assert new24s == old24s;
    } else {
      Fresh24sAdd(addresses, a, before, syn);
      if Covered(a, mid, syn) {
        assert old24s + {a / 256} == old24s;
      } else {
        GainedPut(before, mid, old24s, a / 256, now[Slash24(a / 256)]);
      }
    }
    if !Covered(a, mid, syn) { PutSize(mid, Slash24(a / 256), now[Slash24(a / 256)]); }
  }

  lemma PutSize<K, V>(m: map<K, V>, k: K, v: V)
    ensures |m[k := v]| == |m| + if k in m then 0 else 1
  {
    assert m[k := v].Keys == m.Keys + {k};
  }

  lemma GroupsGrow(c: string, groups: set<nat>, g: nat)
    requires c == Slash24(g) || InGroups(c, groups)
    ensures InGroups(c, groups + {g})
  {
    hide Slash24;
    var h :| c == Slash24(h) && (h in groups || h == g);
    assert h in groups + {g};
  }

  lemma GainedPut(before: map<string, SubnetRow>, mid: map<string, SubnetRow>, groups: set<nat>, g: nat, row: SubnetRow)
    requires PlainSubnet(row) && Gained(before, mid, groups) && g < 0x100_0000 && g !in groups && Slash24(g) !in mid
    ensures Gained(before, mid[Slash24(g) := row], groups + {g})
  {
    hide Slash24, InGroups, PlainSubnet;
    var c0 := Slash24(g);
    var now := mid[c0 := row];
    PutSize(mid, c0, row);
    assert |now| == |before| + |groups + {g}|;
    forall c | c in now && c !in before ensures InGroups(c, groups + {g}) {
      GroupsGrow(c, groups, g);
    }
    forall h | h in groups + {g} ensures h < 0x100_0000 && Slash24(h) in now && Slash24(h) !in before {
      if h != g { assert h in groups && Slash24(h) in mid; }
    }
  }

  lemma Fresh24sAdd(addresses: set<nat>, a: nat, before: map<string, SubnetRow>, syn: Syntax)
    requires !Covered(a, before, syn)
    ensures Fresh24s(addresses + {a}, before, syn) == Fresh24s(addresses, before, syn) + {a / 256}
  {
  }

  lemma NothingGained(before: map<string, SubnetRow>, syn: Syntax)
    ensures Gained(before, before, Fresh24s({}, before, syn))
  {
    assert Fresh24s({}, before, syn) == {};
  }

  // ---- what the store calls add ----

  /** A host upsert for key `k`: nothing but this row changes, and it keeps its id. */
  ghost predicate Adds(db: Db, db': Db, k: HostKey) {
    && db'.subnets == db.subnets && db'.ports == db.ports && k in db'.hosts && HasHost(db'.hosts, db'.hosts[k].id)
    && (forall l | l in db.hosts :: l in db'.hosts && db'.hosts[l].id == db.hosts[l].id)
    && (forall l | l in db'.hosts && l != k :: l in db.hosts && db'.hosts[l] == db.hosts[l])
    && |db'.hosts| == |db.hosts| + if k in db.hosts then 0 else 1
  }

  /** The row of a named address: a stored one gets the name if it has none, a new one is unknown and has
      nothing else. */
  ghost predicate NamedRow(before: map<HostKey, HostRow>, k: HostKey, row: HostRow, name: string) {
    if k in before then
      row == before[k].(hostname := if before[k].hostname == "" then name else before[k].hostname)
    else row == HostRow(row.id, "", name, "", Unknown, Auto, "", 0, false, false)
  }

  lemma ImportHostAdds(db: Db, s: nat, ip: string, hostname: string)
    requires HasSubnet(db.subnets, s)
    ensures var db' := Tables.ImportHost(db, s, ip, "", hostname, "", ""); var k := HostKey(s, ip);
            Adds(db, db', k) && NamedRow(db.hosts, k, db'.hosts[k], hostname)
  {
    var k := HostKey(s, ip);
    var db' := Tables.ImportHost(db, s, ip, "", hostname, "", "");
    assert db'.hosts == db.hosts[k := db'.hosts[k]];
    PutSize(db.hosts, k, db'.hosts[k]);
  }

  /** The row of a reported host: up, with the reported texts where there are any, or else as stored. */
  ghost predicate SeenRow(before: map<HostKey, HostRow>, k: HostKey, row: HostRow, mac: string, hostname: string,
                          vendor: string)
  {
    var old_ := if k in before then before[k] else HostRow(row.id, "", "", "", Unknown, Auto, "", 0, false, false);
    row == old_.(status := Up, misses := 0, mac := if mac != "" then mac else old_.mac,
                 hostname := if hostname != "" then hostname else old_.hostname,
                 vendor := if vendor != "" then vendor else old_.vendor)
  }

  lemma UpsertHostAdds(db: Db, s: nat, ip: string, mac: string, hostname: string, vendor: string)
    requires HasSubnet(db.subnets, s)
    ensures var db' := Tables.UpsertHost(db, s, ip, mac, hostname, vendor); var k := HostKey(s, ip);
            Adds(db, db', k) && SeenRow(db.hosts, k, db'.hosts[k], mac, hostname, vendor)
  {
    var k := HostKey(s, ip);
    var db' := Tables.UpsertHost(db, s, ip, mac, hostname, vendor);
    assert db'.hosts == db.hosts[k := db'.hosts[k]];
    PutSize(db.hosts, k, db'.hosts[k]);
  }

  ghost predicate SubnetsKept(db: Db, db': Db) {
    forall c | c in db.subnets :: c in db'.subnets && db'.subnets[c].id == db.subnets[c].id
  }

  lemma HomeKept(id: nat, a: nat, db: Db, db': Db, syn: Syntax)
    requires HomeOf(id, a, db.subnets, syn) && SubnetsKept(db, db')
    ensures HomeOf(id, a, db'.subnets, syn)
  {
  }

  // ---- dnsrecon ----

  predicate UsableName(text: string, names: map<string, seq<string>>, syn: Syntax) {
    text in names && names[text] != [] && syn.ip(text).Address?
  }

  ghost function Processed(texts: seq<string>, names: map<string, seq<string>>, syn: Syntax): set<nat> {
    set t | t in texts && UsableName(t, names, syn) :: syn.ip(t).value
  }

  function UsableCount(texts: seq<string>, names: map<string, seq<string>>, syn: Syntax): nat {
    if texts == [] then 0
    else UsableCount(texts[..|texts| - 1], names, syn) + if UsableName(texts[|texts| - 1], names, syn) then 1 else 0
  }

  /** The address has a host row, on a stored subnet that contains it, under the name it had before the
      import, or else the imported one. */
  ghost predicate Named(text: string, name: string, before: map<HostKey, HostRow>, db: Db, syn: Syntax) {
    syn.ip(text).Address? && exists id ::
      HomeOf(id, syn.ip(text).value, db.subnets, syn) && HostKey(id, text) in db.hosts &&
      NamedRow(before, HostKey(id, text), db.hosts[HostKey(id, text)], name)
  }

  ghost predicate AllNamed(texts: seq<string>, names: map<string, seq<string>>, before: map<HostKey, HostRow>, db: Db,
                           syn: Syntax) {
    forall t | t in texts && UsableName(t, names, syn) :: Named(t, names[t][0], before, db, syn)
  }

  /** Rows of addresses that are still to come are as they were. */
  ghost predicate Untouched(texts: seq<string>, before: map<HostKey, HostRow>, db: Db) {
    && (forall k | k in before :: k in db.hosts)
    && (forall k | k in db.hosts && k.ip !in texts :: k in before && db.hosts[k] == before[k])
  }

  /** One usable address has been imported, on subnet `id`. */
  ghost predicate NameStored(db: Db, db': Db, id: nat, t: string, name: string, syn: Syntax) {
    && SubnetsKept(db, db') && syn.ip(t).Address? && HomeOf(id, syn.ip(t).value, db'.subnets, syn)
    && HostKey(id, t) in db'.hosts
    && NamedRow(db.hosts, HostKey(id, t), db'.hosts[HostKey(id, t)], name)
    && (forall l | l in db.hosts :: l in db'.hosts)
    && (forall l | l in db'.hosts && l != HostKey(id, t) :: l in db.hosts && db'.hosts[l] == db.hosts[l])
  }

  lemma UntouchedOneMore(texts: seq<string>, t: string, id: nat, name: string, before: map<HostKey, HostRow>, db: Db,
                         db': Db, syn: Syntax)
    requires Untouched(texts, before, db) && NameStored(db, db', id, t, name, syn)
    ensures Untouched(texts + [t], before, db')
  {
    hide HomeOf, SubnetsKept;
    forall k | k in db'.hosts && k.ip !in texts + [t] ensures k in before && db'.hosts[k] == before[k] {
      assert k != HostKey(id, t) && k.ip !in texts;
    }
  }

  lemma StaysNamed(u: string, name: string, before: map<HostKey, HostRow>, db: Db, db': Db, id: nat, t: string,
                   n: string, syn: Syntax)
    requires Named(u, name, before, db, syn) && NameStored(db, db', id, t, n, syn) && u != t
    ensures Named(u, name, before, db', syn)
  {
    hide HomeOf, SubnetsKept;
    var j :| HomeOf(j, syn.ip(u).value, db.subnets, syn) && HostKey(j, u) in db.hosts &&
      NamedRow(before, HostKey(j, u), db.hosts[HostKey(j, u)], name);
    HomeKept(j, syn.ip(u).value, db, db', syn);
  }

  lemma NamedOneMore(texts: seq<string>, t: string, id: nat, names: map<string, seq<string>>,
                     before: map<HostKey, HostRow>, db: Db, db': Db, syn: Syntax)
    requires AllNamed(texts, names, before, db, syn) && Untouched(texts, before, db)
    requires t !in texts && UsableName(t, names, syn) && NameStored(db, db', id, t, names[t][0], syn)
    ensures AllNamed(texts + [t], names, before, db', syn) && Untouched(texts + [t], before, db')
  {
    UntouchedOneMore(texts, t, id, names[t][0], before, db, db', syn);
    FirstNamed(texts, t, id, names[t][0], before, db, db', syn);
    hide Named, NameStored, Untouched;
    forall u | u in texts && UsableName(u, names, syn) ensures Named(u, names[u][0], before, db', syn) {
      StaysNamed(u, names[u][0], before, db, db', id, t, names[t][0], syn);
    }
  }

  lemma FirstNamed(texts: seq<string>, t: string, id: nat, name: string, before: map<HostKey, HostRow>, db: Db,
                   db': Db, syn: Syntax)
    requires Untouched(texts, before, db) && t !in texts && NameStored(db, db', id, t, name, syn)
    ensures Named(t, name, before, db', syn)
  {
    hide HomeOf, SubnetsKept;
    assert HostKey(id, t) in db.hosts <==> HostKey(id, t) in before;
  }

  lemma NamedUnusable(texts: seq<string>, t: string, names: map<string, seq<string>>,
                      before: map<HostKey, HostRow>, db: Db, syn: Syntax)
    requires AllNamed(texts, names, before, db, syn) && Untouched(texts, before, db) && !UsableName(t, names, syn)
    ensures AllNamed(texts + [t], names, before, db, syn) && Untouched(texts + [t], before, db)
  {
  }

  /** The loop body for one usable address. */
  method ImportName(st: Store, known: seq<Known>, t: string, name: string, syn: Syntax)
    returns (created: bool, isNew: bool, known': seq<Known>, ghost id: nat)
    requires ListsSubnets(known, st.subnets) && ReadsBack(syn) && syn.ip(t).Address?
    modifies st
    ensures ListsSubnets(known', st.subnets)
    ensures Resolved(old(st.subnets), st.subnets, syn.ip(t).value, created, syn)
    ensures NameStored(old(st.Snapshot()), st.Snapshot(), id, t, name, syn) && st.ports == old(st.ports)
    ensures |st.hosts| == old(|st.hosts|) + if isNew then 1 else 0
  {
    hide HomeOf, ListsSubnets, Tables.ImportHost, HasHost, HasSubnet, Covered, Slash24, ReadsBack;
    AddressInRange(t, syn);
    var sid;
    sid, created, known' := ResolveSubnetFor(st, known, syn.ip(t).value, syn);
    id := sid;
    HomeStored(id, syn.ip(t).value, st.subnets, syn);
    ghost var mid := st.Snapshot();
    ImportHostAdds(mid, id, t, name);
    var r := st.ImportHost(sid, t, "", name, "", "");
    isNew := r.isNew;
  }

  /** The invariant of the loop over addresses. */
  ghost predicate NamesImported(texts: seq<string>, names: map<string, seq<string>>, before: Db, db: Db,
                                processed: nat, newSubnets: nat, newHosts: nat, syn: Syntax)
  {
    && Gained(before.subnets, db.subnets, Fresh24s(Processed(texts, names, syn), before.subnets, syn))
    && AllNamed(texts, names, before.hosts, db, syn) && Untouched(texts, before.hosts, db) && db.ports == before.ports
    && |db.subnets| == |before.subnets| + newSubnets && |db.hosts| == |before.hosts| + newHosts
    && processed == UsableCount(texts, names, syn)
  }

  lemma NoNames(names: map<string, seq<string>>, db: Db, syn: Syntax)
    ensures NamesImported([], names, db, db, 0, 0, 0, syn)
  {
    hide Gained, AllNamed, Untouched, Fresh24s;
    NothingGained(db.subnets, syn);
    NothingNamed(names, db, syn);
    assert Processed([], names, syn) == {};
  }

  lemma UnusableImported(texts: seq<string>, t: string, names: map<string, seq<string>>, before: Db, db: Db,
                         processed: nat, newSubnets: nat, newHosts: nat, syn: Syntax)
    requires NamesImported(texts, names, before, db, processed, newSubnets, newHosts, syn) && !UsableName(t, names, syn)
    ensures NamesImported(texts + [t], names, before, db, processed, newSubnets, newHosts, syn)
  {
    hide Gained, AllNamed, Untouched, Fresh24s;
    assert (texts + [t])[..|texts|] == texts;
    assert Processed(texts + [t], names, syn) == Processed(texts, names, syn);
    NamedUnusable(texts, t, names, before.hosts, db, syn);
  }

  lemma NameImported(texts: seq<string>, t: string, names: map<string, seq<string>>, before: Db, db: Db, db': Db,
                     processed: nat, newSubnets: nat, newHosts: nat, created: bool, isNew: bool, id: nat, syn: Syntax)
    requires NamesImported(texts, names, before, db, processed, newSubnets, newHosts, syn) && ReadsBack(syn)
    requires t !in texts && UsableName(t, names, syn) && NameStored(db, db', id, t, names[t][0], syn)
    requires Resolved(db.subnets, db'.subnets, syn.ip(t).value, created, syn) && db'.ports == db.ports
    requires |db'.hosts| == |db.hosts| + if isNew then 1 else 0
    ensures NamesImported(texts + [t], names, before, db', processed + 1, newSubnets + (if created then 1 else 0),
                          newHosts + (if isNew then 1 else 0), syn)
  {
    hide Gained, AllNamed, Untouched, Fresh24s, ReadsBack, NameStored, Resolved;
    assert (texts + [t])[..|texts|] == texts;
    AddressInRange(t, syn);
    assert Processed(texts + [t], names, syn) == Processed(texts, names, syn) + {syn.ip(t).value};
    GainedOneMore(before.subnets, db.subnets, db'.subnets, Processed(texts, names, syn), syn.ip(t).value, created, syn);
    NamedOneMore(texts, t, id, names, before.hosts, db, db', syn);
  }

  lemma NamesImportedMeans(texts: seq<string>, names: map<string, seq<string>>, before: Db, db: Db, processed: nat,
                           newSubnets: nat, newHosts: nat, syn: Syntax)
    requires NamesImported(texts, names, before, db, processed, newSubnets, newHosts, syn)
    ensures var all24s := Fresh24s(Processed(texts, names, syn), before.subnets, syn);
            Gained(before.subnets, db.subnets, all24s) && newSubnets == |all24s|
    ensures AllNamed(texts, names, before.hosts, db, syn) && Untouched(texts, before.hosts, db)
    ensures |db.hosts| == |before.hosts| + newHosts && processed == UsableCount(texts, names, syn)
    ensures db.ports == before.ports
  {
    hide Gained, AllNamed, Untouched, Fresh24s, UsableCount, Processed;
    GainedSize(before.subnets, db.subnets, Fresh24s(Processed(texts, names, syn), before.subnets, syn));
  }

  /** Main: whatever order the addresses come in, every usable one ends up on a subnet that contains it
      with its name filled in; the subnets created are the /24s of the addresses outside all initial
      subnets, one each; and the counters are exact. */
  method ImportDNSReconAddresses(st: Store, names: map<string, seq<string>>, ips: seq<string>, subnets: seq<Known>,
                                 syn: Syntax)
    returns (processed: nat, newSubnets: nat, newHosts: nat)
    requires ListsSubnets(subnets, st.subnets) && ReadsBack(syn) && Distinct(ips)
    modifies st
    ensures Gained(old(st.subnets), st.subnets, Fresh24s(Processed(ips, names, syn), old(st.subnets), syn))
    ensures newSubnets == |Fresh24s(Processed(ips, names, syn), old(st.subnets), syn)|
    ensures AllNamed(ips, names, old(st.hosts), st.Snapshot(), syn) && Untouched(ips, old(st.hosts), st.Snapshot())
    ensures |st.hosts| == old(|st.hosts|) + newHosts && processed == UsableCount(ips, names, syn)
    ensures st.ports == old(st.ports)
  {
    hide NamesImported, Resolved, ReadsBack, NameStored, ListsSubnets, Gained, AllNamed, Untouched, Fresh24s;
    processed, newSubnets, newHosts := 0, 0, 0;
    var known := subnets;
    ghost var first := st.Snapshot();
    NoNames(names, first, syn);
    assert ips[..0] == [];
    for i := 0 to |ips|
      invariant ListsSubnets(known, st.subnets)
      invariant NamesImported(ips[..i], names, first, st.Snapshot(), processed, newSubnets, newHosts, syn)
    {
      var t := ips[i];
      assert ips[..i + 1] == ips[..i] + [t];
      ghost var start := st.Snapshot();
      if !UsableName(t, names, syn) {
        UnusableImported(ips[..i], t, names, first, start, processed, newSubnets, newHosts, syn);
        continue;
      }
      var created, isNew;
      ghost var id;
      created, isNew, known, id := ImportName(st, known, t, names[t][0], syn);
      NameImported(ips[..i], t, names, first, start, st.Snapshot(), processed, newSubnets, newHosts, created, isNew, id,
                   syn);
      processed := processed + 1;
      newSubnets := newSubnets + if created then 1 else 0;
      newHosts := newHosts + if isNew then 1 else 0;
    }
    assert ips[..|ips|] == ips;
    NamesImportedMeans(ips, names, first, st.Snapshot(), processed, newSubnets, newHosts, syn);
  }

  lemma NothingNamed(names: map<string, seq<string>>, db: Db, syn: Syntax)
    ensures AllNamed([], names, db.hosts, db, syn) && Untouched([], db.hosts, db)
  {
  }

  lemma GainedSize(before: map<string, SubnetRow>, now: map<string, SubnetRow>, groups: set<nat>)
    requires Gained(before, now, groups)
    ensures |now| == |before| + |groups|
  {
  }

  lemma AddressInRange(t: string, syn: Syntax)
    requires ReadsBack(syn) && syn.ip(t).Address?
    ensures syn.ip(t).value < ADDRESSES
  {
  }

  lemma HomeStored(id: nat, a: nat, subnets: map<string, SubnetRow>, syn: Syntax)
    requires HomeOf(id, a, subnets, syn)
    ensures HasSubnet(subnets, id)
  {
  }

  /** The order the addresses are walked in is irrelevant to which subnets are created. */
  lemma CreatedRegardlessOfOrder(ips: seq<string>, others: seq<string>, names: map<string, seq<string>>,
                                 before: map<string, SubnetRow>, syn: Syntax)
    requires multiset(ips) == multiset(others)
    ensures Fresh24s(Processed(ips, names, syn), before, syn) == Fresh24s(Processed(others, names, syn), before, syn)
  {
    forall t ensures t in ips <==> t in others {
      assert (t in ips <==> t in multiset(ips)) && (t in others <==> t in multiset(others));
    }
  }

  // ---- nmap ----

  ghost predicate OpenOn(host: nat, ports: seq<NmapPort>, db: Db) {
    forall j | 0 <= j < |ports| ::
      PortKey(host, ports[j].port, "tcp") in db.ports && db.ports[PortKey(host, ports[j].port, "tcp")].open
  }

  type PortRows = map<PortKey, PortRow>

  /** A port that is listed once has the listed texts where there are any, or else the stored ones. */
  ghost predicate TextsOn(host: nat, ports: seq<NmapPort>, before: PortRows, after: PortRows) {
    forall j | 0 <= j < |ports| && (forall i | 0 <= i < |ports| && i != j :: ports[i].port != ports[j].port) ::
      PortStored(ports[j], PortKey(host, ports[j].port, "tcp"), before, after)
  }

  ghost predicate PortStored(p: NmapPort, k: PortKey, before: PortRows, after: PortRows) {
    var old_ := if k in before then before[k] else PortRow(false, "", "", "", "");
    k in after && after[k] ==
      PortRow(true, p.service, if p.banner != "" then p.banner else old_.banner,
              if p.product != "" then p.product else old_.product,
              if p.version != "" then p.version else old_.version)
  }

  /** Rows under other numbers than those listed are as they were. */
  ghost predicate OtherPorts(host: nat, ports: seq<NmapPort>, before: PortRows, after: PortRows) {
    forall k | k in before || k in after ::
      (forall i | 0 <= i < |ports| :: k != PortKey(host, ports[i].port, "tcp")) ==>
        k in before && k in after && after[k] == before[k]
  }

  lemma OneMoreText(host: nat, ports: seq<NmapPort>, p: NmapPort, before: PortRows, mid: PortRows, after: PortRows)
    requires TextsOn(host, ports, before, mid) && OtherPorts(host, ports, before, mid)
    requires var k := PortKey(host, p.port, "tcp"); PortStored(p, k, mid, after) && after == mid[k := after[k]]
    ensures TextsOn(host, ports + [p], before, after) && OtherPorts(host, ports + [p], before, after)
  {
    var all := ports + [p];
    forall j | 0 <= j < |all| && (forall i | 0 <= i < |all| && i != j :: all[i].port != all[j].port)
      ensures PortStored(all[j], PortKey(host, all[j].port, "tcp"), before, after)
    {
      if j < |ports| {
        assert all[j] == ports[j] && all[|ports|].port != ports[j].port;
        forall i | 0 <= i < |ports| && i != j ensures ports[i].port != ports[j].port {
          assert all[i].port != all[j].port;
        }
        assert PortStored(ports[j], PortKey(host, ports[j].port, "tcp"), before, mid);
      } else {
        forall i | 0 <= i < |ports| ensures ports[i].port != p.port { assert all[i].port != all[j].port; }
      }
    }
    forall k | (k in before || k in after) && (forall i | 0 <= i < |all| :: k != PortKey(host, all[i].port, "tcp"))
      ensures k in before && k in after && after[k] == before[k]
    {
      assert all[|ports|] == p;
      forall i | 0 <= i < |ports| ensures k != PortKey(host, ports[i].port, "tcp") { assert all[i] == ports[i]; }
    }
  }

  /** No port row is lost or closed. */
  ghost predicate PortsKept(db: Db, db': Db) {
    forall k | k in db.ports :: k in db'.ports && (db.ports[k].open ==> db'.ports[k].open)
  }

  lemma UpsertPortOpens(db: Db, k: PortKey, service: string, banner: string, product: string, version: string)
    requires HasHost(db.hosts, k.host)
    ensures var db' := Tables.UpsertPort(db, k, service, banner, product, version);
            && db' == db.(ports := db'.ports) && PortsKept(db, db') && k in db'.ports && db'.ports[k].open
            && |db'.ports| == |db.ports| + (if k in db.ports then 0 else 1)
            && PortStored(NmapPort(k.port, service, banner, product, version), k, db.ports, db'.ports)
            && db'.ports == db.ports[k := db'.ports[k]]
  {
    var db' := Tables.UpsertPort(db, k, service, banner, product, version);
    assert db'.ports == db.ports[k := db'.ports[k]];
    PutSize(db.ports, k, db'.ports[k]);
  }

  lemma OneMoreOpen(host: nat, ports: seq<NmapPort>, p: NmapPort, before: Db, db: Db, db': Db)
    requires OpenOn(host, ports, db) && PortsKept(before, db) && PortsKept(db, db')
    requires var k := PortKey(host, p.port, "tcp"); k in db'.ports && db'.ports[k].open
    ensures OpenOn(host, ports + [p], db') && PortsKept(before, db')
  {
  }

  lemma NothingOpened(host: nat, db: Db)
    ensures OpenOn(host, [], db) && PortsKept(db, db)
  {
  }

  lemma NoTexts(host: nat, ports: PortRows)
    ensures TextsOn(host, [], ports, ports) && OtherPorts(host, [], ports, ports)
  {
  }

  method ImportNmapPorts(st: Store, host: nat, ports: seq<NmapPort>) returns (newPorts: nat)
    requires HasHost(st.hosts, host)
    modifies st
    ensures st.Snapshot() == old(st.Snapshot()).(ports := st.ports)
    ensures |st.ports| == old(|st.ports|) + newPorts && PortsKept(old(st.Snapshot()), st.Snapshot())
    ensures OpenOn(host, ports, st.Snapshot()) && TextsOn(host, ports, old(st.ports), st.ports)
    ensures OtherPorts(host, ports, old(st.ports), st.ports)
  {
    hide Tables.UpsertPort, PortStored, TextsOn, OtherPorts, OpenOn, PortsKept;
    newPorts := 0;
    NoTexts(host, st.ports);
    NothingOpened(host, st.Snapshot());
    assert ports[..0] == [];
    for i := 0 to |ports|
      invariant st.Snapshot() == old(st.Snapshot()).(ports := st.ports)
      invariant |st.ports| == old(|st.ports|) + newPorts && PortsKept(old(st.Snapshot()), st.Snapshot())
      invariant OpenOn(host, ports[..i], st.Snapshot())
      invariant TextsOn(host, ports[..i], old(st.ports), st.ports)
      invariant OtherPorts(host, ports[..i], old(st.ports), st.ports)
    {
      var p := ports[i];
      ghost var start := st.Snapshot();
      UpsertPortOpens(st.Snapshot(), PortKey(host, p.port, "tcp"), p.service, p.banner, p.product, p.version);
      assert ports[..i + 1] == ports[..i] + [p];
      var isNew := st.UpsertPort(host, p.port, "tcp", p.service, p.banner, p.product, p.version);
      OneMoreText(host, ports[..i], p, old(st.ports), start.ports, st.ports);
      OneMoreOpen(host, ports[..i], p, old(st.Snapshot()), start, st.Snapshot());
      if isNew {
        newPorts := newPorts + 1;
      }
    }
    assert ports[..|ports|] == ports;
  }

  ghost function Imported(hosts: seq<NmapHost>, syn: Syntax): set<nat> {
    set h | h in hosts && syn.ip(h.ip).Address? :: syn.ip(h.ip).value
  }

  /** The host is up, on a stored subnet that contains its address, with its ports open. */
  ghost predicate Placed(h: NmapHost, db: Db, syn: Syntax) {
    syn.ip(h.ip).Address? && exists id :: PlacedOn(h, id, db, syn)
  }

  ghost predicate PlacedOn(h: NmapHost, id: nat, db: Db, syn: Syntax)
    requires syn.ip(h.ip).Address?
  {
    HomeOf(id, syn.ip(h.ip).value, db.subnets, syn) && HostKey(id, h.ip) in db.hosts &&
    var row := db.hosts[HostKey(id, h.ip)];
    row.status == Up && row.misses == 0 && OpenOn(row.id, h.ports, db)
  }

  /** On that subnet its row and its ports have the reported texts, `before` being the tables before. */
  ghost predicate Written(h: NmapHost, before: Db, db: Db, syn: Syntax)
    requires syn.ip(h.ip).Address?
  {
    exists id :: PlacedOn(h, id, db, syn) && WrittenOn(h, HostKey(id, h.ip), before, db)
  }

  ghost predicate WrittenOn(h: NmapHost, k: HostKey, before: Db, db: Db) {
    && k in db.hosts && SeenRow(before.hosts, k, db.hosts[k], h.mac, h.hostname, h.vendor)
    && TextsOn(db.hosts[k].id, h.ports, before.ports, db.ports)
  }

  ghost predicate AllPlaced(hosts: seq<NmapHost>, db: Db, syn: Syntax) {
    forall i | 0 <= i < |hosts| && syn.ip(hosts[i].ip).Address? :: Placed(hosts[i], db, syn)
  }

  /** Rows keep their ids, and those that are up without a miss stay so. */
  ghost predicate HostsKept(db: Db, db': Db) {
    forall k | k in db.hosts ::
      && k in db'.hosts && db'.hosts[k].id == db.hosts[k].id
      && (db.hosts[k].status == Up && db.hosts[k].misses == 0 ==> db'.hosts[k].status == Up && db'.hosts[k].misses == 0)
  }

  lemma StaysPlaced(h: NmapHost, db: Db, db': Db, syn: Syntax)
    requires Placed(h, db, syn) && SubnetsKept(db, db') && HostsKept(db, db') && PortsKept(db, db')
    ensures Placed(h, db', syn)
  {
    var id :| PlacedOn(h, id, db, syn);
    HomeKept(id, syn.ip(h.ip).value, db, db', syn);
    assert PlacedOn(h, id, db', syn);
  }

  lemma OneMorePlaced(hosts: seq<NmapHost>, h: NmapHost, db: Db, db': Db, syn: Syntax)
    requires AllPlaced(hosts, db, syn) && (syn.ip(h.ip).Address? ==> Placed(h, db', syn))
    requires SubnetsKept(db, db') && HostsKept(db, db') && PortsKept(db, db')
    ensures AllPlaced(hosts + [h], db', syn)
  {
    forall i | 0 <= i < |hosts| && syn.ip(hosts[i].ip).Address? ensures Placed(hosts[i], db', syn) {
      StaysPlaced(hosts[i], db, db', syn);
    }
  }

  ghost function ReportedIPs(hosts: seq<NmapHost>, syn: Syntax): set<string> {
    set h | h in hosts && syn.ip(h.ip).Address? :: h.ip
  }

  /** Host rows of addresses that are not in the report are as they were. */
  ghost predicate OthersKept(ips: set<string>, before: Db, db: Db) {
    forall k | k in before.hosts || k in db.hosts ::
      k.ip !in ips ==> k in before.hosts && k in db.hosts && db.hosts[k] == before.hosts[k]
  }

  /** No row is lost, and the rows of others are left alone. */
  ghost predicate Kept(ips: set<string>, before: Db, db: Db) {
    HostsKept(before, db) && PortsKept(before, db) && OthersKept(ips, before, db)
  }

  lemma KeptOneMore(before: Db, db: Db, db': Db, ips: set<string>, ip: string)
    requires Kept(ips, before, db) && Kept({ip}, db, db')
    ensures Kept(ips + {ip}, before, db')
  {
  }

  /** The hosts listed so far are imported and nothing else has changed. */
  ghost predicate AllImported(hosts: seq<NmapHost>, before: Db, db: Db, syn: Syntax) {
    AllPlaced(hosts, db, syn) && Kept(ReportedIPs(hosts, syn), before, db) && AllSeen(hosts, before, db, syn)
  }

  /** No other entry is about the same address. */
  ghost predicate Alone(hosts: seq<NmapHost>, i: nat, syn: Syntax)
    requires i < |hosts|
  {
    forall j | 0 <= j < |hosts| && j != i && syn.ip(hosts[j].ip).Address? :: hosts[j].ip != hosts[i].ip
  }

  ghost predicate Seen(h: NmapHost, before: Db, db: Db, syn: Syntax)
    requires syn.ip(h.ip).Address?
  {
    exists id :: PlacedOn(h, id, db, syn) && SeenOn(h, HostKey(id, h.ip), before, db)
  }

  ghost predicate SeenOn(h: NmapHost, k: HostKey, before: Db, db: Db) {
    k in db.hosts && SeenRow(before.hosts, k, db.hosts[k], h.mac, h.hostname, h.vendor)
  }

  /** A host that is reported once has the reported texts where there are any, and is otherwise as stored. */
  ghost predicate AllSeen(hosts: seq<NmapHost>, before: Db, db: Db, syn: Syntax) {
    forall i | 0 <= i < |hosts| && syn.ip(hosts[i].ip).Address? && Alone(hosts, i, syn) ::
      Seen(hosts[i], before, db, syn)
  }

  lemma StaysSeen(h: NmapHost, ip: string, before: Db, db: Db, db': Db, syn: Syntax)
    requires syn.ip(h.ip).Address? && Seen(h, before, db, syn) && h.ip != ip
    requires SubnetsKept(db, db') && Kept({ip}, db, db')
    ensures Seen(h, before, db', syn)
  {
    var id :| PlacedOn(h, id, db, syn) && SeenOn(h, HostKey(id, h.ip), before, db);
    hide SeenRow, OpenOn;
    assert HostKey(id, h.ip).ip !in {ip};
    HomeKept(id, syn.ip(h.ip).value, db, db', syn);
    OpenKept(db.hosts[HostKey(id, h.ip)].id, h.ports, db, db');
    assert PlacedOn(h, id, db', syn) && SeenOn(h, HostKey(id, h.ip), before, db');
  }

  lemma OpenKept(host: nat, ports: seq<NmapPort>, db: Db, db': Db)
    requires OpenOn(host, ports, db) && PortsKept(db, db')
    ensures OpenOn(host, ports, db')
  {
  }

  /** An address that was not in the report so far has been left alone so far. */
  lemma FirstSeen(hosts: seq<NmapHost>, h: NmapHost, before: Db, db: Db, db': Db, syn: Syntax)
    requires syn.ip(h.ip).Address? && Written(h, db, db', syn)
    requires OthersKept(ReportedIPs(hosts, syn), before, db) && h.ip !in ReportedIPs(hosts, syn)
    ensures Seen(h, before, db', syn)
  {
    hide HomeOf, OpenOn, TextsOn;
    var id :| PlacedOn(h, id, db', syn) && WrittenOn(h, HostKey(id, h.ip), db, db');
    var k := HostKey(id, h.ip);
    assert k in before.hosts <==> k in db.hosts;
    assert SeenOn(h, k, before, db');
  }

  lemma OneMoreSeen(hosts: seq<NmapHost>, h: NmapHost, before: Db, db: Db, db': Db, syn: Syntax)
    requires AllSeen(hosts, before, db, syn) && Kept(ReportedIPs(hosts, syn), before, db)
    requires syn.ip(h.ip).Address? && Written(h, db, db', syn) && SubnetsKept(db, db') && Kept({h.ip}, db, db')
    ensures AllSeen(hosts + [h], before, db', syn)
  {
    hide Seen, Written, SubnetsKept, HostsKept, PortsKept, OthersKept;
    var all := hosts + [h];
    assert all[|hosts|] == h && forall i | 0 <= i < |hosts| :: all[i] == hosts[i];
    forall i | 0 <= i < |all| && syn.ip(all[i].ip).Address? && Alone(all, i, syn)
      ensures Seen(all[i], before, db', syn)
    {
      if i < |hosts| {
        assert Alone(hosts, i, syn) && h.ip != hosts[i].ip;
        StaysSeen(hosts[i], h.ip, before, db, db', syn);
      } else {
        assert h.ip !in ReportedIPs(hosts, syn);
        FirstSeen(hosts, h, before, db, db', syn);
      }
    }
  }

  lemma SkipSeen(hosts: seq<NmapHost>, h: NmapHost, before: Db, db: Db, syn: Syntax)
    requires AllSeen(hosts, before, db, syn) && syn.ip(h.ip).NoAddress?
    ensures AllSeen(hosts + [h], before, db, syn)
  {
    hide Seen;
    var all := hosts + [h];
    assert all[|hosts|] == h && forall i | 0 <= i < |hosts| :: all[i] == hosts[i];
    forall i | 0 <= i < |all| && syn.ip(all[i].ip).Address? && Alone(all, i, syn)
      ensures Seen(all[i], before, db, syn)
    {
      assert i < |hosts| && Alone(hosts, i, syn);
    }
  }

  /** The subnets created so far for the listed hosts, and their number. */
  ghost predicate SubnetsCounted(hosts: seq<NmapHost>, before: map<string, SubnetRow>, now: map<string, SubnetRow>,
                                 created: nat, syn: Syntax)
  {
    && Gained(before, now, Fresh24s(Imported(hosts, syn), before, syn))
    && |now| == |before| + created
  }

  lemma NoneCounted(before: map<string, SubnetRow>, syn: Syntax)
    ensures SubnetsCounted([], before, before, 0, syn)
  {
    NothingGained(before, syn);
    assert Imported([], syn) == {};
  }

  lemma OneMoreCounted(hosts: seq<NmapHost>, h: NmapHost, before: map<string, SubnetRow>, mid: map<string, SubnetRow>,
                       now: map<string, SubnetRow>, count: nat, created: bool, syn: Syntax)
    requires SubnetsCounted(hosts, before, mid, count, syn) && ReadsBack(syn)
    requires if syn.ip(h.ip).Address? then Resolved(mid, now, syn.ip(h.ip).value, created, syn)
      else now == mid && !created
    ensures SubnetsCounted(hosts + [h], before, now, count + if created then 1 else 0, syn)
    ensures forall c | c in mid :: c in now && now[c].id == mid[c].id
  {
    hide Gained, Resolved, ReadsBack, Fresh24s;
    if syn.ip(h.ip).Address? {
      AddressInRange(h.ip, syn);
      assert Imported(hosts + [h], syn) == Imported(hosts, syn) + {syn.ip(h.ip).value};
      GainedOneMore(before, mid, now, Imported(hosts, syn), syn.ip(h.ip).value, created, syn);
    } else {
      assert Imported(hosts + [h], syn) == Imported(hosts, syn);
    }
  }

  lemma NoneImported(db: Db, syn: Syntax)
    ensures AllImported([], db, db, syn)
  {
  }

  lemma OneMoreImported(hosts: seq<NmapHost>, h: NmapHost, before: Db, db: Db, db': Db, syn: Syntax)
    requires AllImported(hosts, before, db, syn) && Placed(h, db', syn) && Written(h, db, db', syn)
    requires SubnetsKept(db, db') && Kept({h.ip}, db, db')
    ensures AllImported(hosts + [h], before, db', syn)
  {
    assert ReportedIPs(hosts + [h], syn) == ReportedIPs(hosts, syn) + {h.ip};
    hide Placed, ReportedIPs, AllPlaced, SubnetsKept, HostsKept, PortsKept, OthersKept, AllSeen, Written;
    OneMoreSeen(hosts, h, before, db, db', syn);
    OneMorePlaced(hosts, h, db, db', syn);
    KeptOneMore(before, db, db', ReportedIPs(hosts, syn), h.ip);
  }

  /** What importing one host with an address does, and what it counts. */
  ghost predicate HostImported(db: Db, db': Db, h: NmapHost, created: bool, isNew: bool, newPorts: nat, syn: Syntax)
    requires syn.ip(h.ip).Address?
  {
    && Resolved(db.subnets, db'.subnets, syn.ip(h.ip).value, created, syn)
    && Placed(h, db', syn) && Kept({h.ip}, db, db') && Written(h, db, db', syn)
    && |db'.hosts| == |db.hosts| + (if isNew then 1 else 0) && |db'.ports| == |db.ports| + newPorts
  }

  /** The loop body for one host with an address. */
  method ImportNmapHost(st: Store, known: seq<Known>, h: NmapHost, syn: Syntax)
    returns (created: bool, isNew: bool, newPorts: nat, known': seq<Known>)
    requires ListsSubnets(known, st.subnets) && ReadsBack(syn) && syn.ip(h.ip).Address?
    modifies st
    ensures ListsSubnets(known', st.subnets)
    ensures HostImported(old(st.Snapshot()), st.Snapshot(), h, created, isNew, newPorts, syn)
  {
    hide HomeOf, ListsSubnets, Tables.UpsertHost, HasHost, HasSubnet, Covered, Slash24, ReadsBack, OpenOn, TextsOn;
    hide OtherPorts, SeenRow;
    AddressInRange(h.ip, syn);
    var id;
    id, created, known' := ResolveSubnetFor(st, known, syn.ip(h.ip).value, syn);
    HomeStored(id, syn.ip(h.ip).value, st.subnets, syn);
    ghost var mid := st.Snapshot();
    UpsertHostAdds(mid, id, h.ip, h.mac, h.hostname, h.vendor);
    var r := st.UpsertHost(id, h.ip, h.mac, h.hostname, h.vendor);
    isNew := r.isNew;
    newPorts := ImportNmapPorts(st, r.id, h.ports);
    assert PlacedOn(h, id, st.Snapshot(), syn);
    assert WrittenOn(h, HostKey(id, h.ip), old(st.Snapshot()), st.Snapshot());
  }

  /** Main: the same for an nmap import, which leaves every imported host up with its ports open, loses and
      closes nothing, and does not touch the rows of hosts that are not in the report. */
  method ImportNmapHosts(st: Store, hosts: seq<NmapHost>, subnets: seq<Known>, syn: Syntax)
    returns (newSubnets: nat, newHosts: nat, newPorts: nat)
    requires ListsSubnets(subnets, st.subnets) && ReadsBack(syn)
    modifies st
    ensures Gained(old(st.subnets), st.subnets, Fresh24s(Imported(hosts, syn), old(st.subnets), syn))
    ensures newSubnets == |Fresh24s(Imported(hosts, syn), old(st.subnets), syn)|
    ensures AllImported(hosts, old(st.Snapshot()), st.Snapshot(), syn)
    ensures |st.hosts| == old(|st.hosts|) + newHosts && |st.ports| == old(|st.ports|) + newPorts
  {
    hide ReadsBack, ListsSubnets, Progress, HostImported, Gained, Fresh24s, AllImported, Imported;
    newSubnets, newHosts, newPorts := 0, 0, 0;
    var known := subnets;
    ghost var first := st.Snapshot();
    NoneYet(first, syn);
    assert hosts[..0] == [];
    for i := 0 to |hosts|
      invariant ListsSubnets(known, st.subnets)
      invariant Progress(hosts[..i], first, st.Snapshot(), newSubnets, newHosts, newPorts, syn)
    {
      var h := hosts[i];
      assert hosts[..i + 1] == hosts[..i] + [h];
      ghost var start := st.Snapshot();
      if syn.ip(h.ip).NoAddress? {
        OneSkipped(hosts[..i], h, first, start, newSubnets, newHosts, newPorts, syn);
        continue;
      }
      var created, isNew, n;
      created, isNew, n, known := ImportNmapHost(st, known, h, syn);
      OneMore(hosts[..i], h, first, start, st.Snapshot(), newSubnets, newHosts, newPorts, created, isNew, n, syn);
      newSubnets := newSubnets + if created then 1 else 0;
      newHosts := newHosts + if isNew then 1 else 0;
      newPorts := newPorts + n;
    }
    assert hosts[..|hosts|] == hosts;
    ProgressMeans(hosts, first, st.Snapshot(), newSubnets, newHosts, newPorts, syn);
  }

  lemma CountedSize(hosts: seq<NmapHost>, before: map<string, SubnetRow>, now: map<string, SubnetRow>, count: nat,
                    syn: Syntax)
    requires SubnetsCounted(hosts, before, now, count, syn)
    ensures Gained(before, now, Fresh24s(Imported(hosts, syn), before, syn))
    ensures count == |Fresh24s(Imported(hosts, syn), before, syn)|
  {
    hide Gained, Fresh24s;
    GainedSize(before, now, Fresh24s(Imported(hosts, syn), before, syn));
  }

  /** The invariant of the loop. */
  ghost predicate Progress(hosts: seq<NmapHost>, before: Db, db: Db, newSubnets: nat, newHosts: nat, newPorts: nat,
                           syn: Syntax)
  {
    && SubnetsCounted(hosts, before.subnets, db.subnets, newSubnets, syn) && AllImported(hosts, before, db, syn)
    && |db.hosts| == |before.hosts| + newHosts && |db.ports| == |before.ports| + newPorts
  }

  lemma NoneYet(db: Db, syn: Syntax)
    ensures Progress([], db, db, 0, 0, 0, syn)
  {
    NoneImported(db, syn);
    NoneCounted(db.subnets, syn);
  }

  lemma OneSkipped(hosts: seq<NmapHost>, h: NmapHost, before: Db, db: Db, newSubnets: nat, newHosts: nat,
                   newPorts: nat, syn: Syntax)
    requires Progress(hosts, before, db, newSubnets, newHosts, newPorts, syn) && ReadsBack(syn)
    requires syn.ip(h.ip).NoAddress?
    ensures Progress(hosts + [h], before, db, newSubnets, newHosts, newPorts, syn)
  {
    hide SubnetsCounted, AllImported, ReadsBack;
    OneMoreCounted(hosts, h, before.subnets, db.subnets, db.subnets, newSubnets, false, syn);
    SkipImported(hosts, h, before, db, syn);
  }

  lemma OneMore(hosts: seq<NmapHost>, h: NmapHost, before: Db, db: Db, db': Db, newSubnets: nat, newHosts: nat,
                newPorts: nat, created: bool, isNew: bool, n: nat, syn: Syntax)
    requires Progress(hosts, before, db, newSubnets, newHosts, newPorts, syn) && ReadsBack(syn)
    requires syn.ip(h.ip).Address? && HostImported(db, db', h, created, isNew, n, syn)
    ensures Progress(hosts + [h], before, db', newSubnets + (if created then 1 else 0),
                     newHosts + (if isNew then 1 else 0), newPorts + n, syn)
  {
    hide SubnetsCounted, AllImported, ReadsBack, Resolved, Placed, Kept, Written;
    OneMoreCounted(hosts, h, before.subnets, db.subnets, db'.subnets, newSubnets, created, syn);
    assert SubnetsKept(db, db');
    OneMoreImported(hosts, h, before, db, db', syn);
  }

  lemma ProgressMeans(hosts: seq<NmapHost>, before: Db, db: Db, newSubnets: nat, newHosts: nat, newPorts: nat,
                      syn: Syntax)
    requires Progress(hosts, before, db, newSubnets, newHosts, newPorts, syn)
    ensures Gained(before.subnets, db.subnets, Fresh24s(Imported(hosts, syn), before.subnets, syn))
    ensures newSubnets == |Fresh24s(Imported(hosts, syn), before.subnets, syn)|
    ensures AllImported(hosts, before, db, syn)
    ensures |db.hosts| == |before.hosts| + newHosts && |db.ports| == |before.ports| + newPorts
  {
    hide AllImported;
    CountedSize(hosts, before.subnets, db.subnets, newSubnets, syn);
  }

  lemma SkipImported(hosts: seq<NmapHost>, h: NmapHost, before: Db, db: Db, syn: Syntax)
    requires AllImported(hosts, before, db, syn) && syn.ip(h.ip).NoAddress?
    ensures AllImported(hosts + [h], before, db, syn)
  {
    assert ReportedIPs(hosts + [h], syn) == ReportedIPs(hosts, syn);
    hide AllSeen, Kept;
    SkipSeen(hosts, h, before, db, syn);
  }
}
