/** One nmap-mode scan cycle of a subnet: three sources of live hosts, one port scan for each, one sweep
    of the rest, and the enrichment pass. The hosts of a cycle are handled one at a time, in any order;
    `CycleRows` says what that makes of the tables. */
module NmapCycle {
  import opened Options
  import opened Tables
  import opened Listings
  import opened Stores
  import opened NmapOutput
  import opened PortScan
  import opened Enrichment
  import opened Ipv4
  import opened CycleRows

  // ---- discovery ----

  /** What a negative capacity is to `make`. */
  datatype Made<T> = Panicked | Made(value: T)

  /** Every address that was not seen; the list is allocated for as many as there ought to be. */
  method UnseenIPStrings(ips: seq<string>, seen: set<string>) returns (out: Made<seq<string>>)
    requires Distinct(ips)
    ensures out.Panicked? <==> |seen| > |ips|
    ensures out.Made? ==> Lists(out.value, set ip | ip in ips && ip !in seen)
  {
    if |ips| - |seen| < 0 {
      return Panicked;
    }
    var found := [];
    for i := 0 to |ips|
      invariant Lists(found, set ip | ip in ips[..i] && ip !in seen)
    {
      var ip := ips[i];
      assert ips[..i + 1] == ips[..i] + [ip];
      if ip !in seen {
        ListsAppend(found, (set x | x in ips[..i] && x !in seen), ip);
        assert (set x | x in ips[..i + 1] && x !in seen) == (set x | x in ips[..i] && x !in seen) + {ip};
        found := found + [ip];
      } else {
        assert (set x | x in ips[..i + 1] && x !in seen) == (set x | x in ips[..i] && x !in seen);
      }
    }
    assert ips[..|ips|] == ips;
    out := Made(found);
  }

  /** The addresses of the prefix that answer a probe, in whatever order they do. */
  method DiscoverAliveHosts(n: Net) returns (alive: Option<seq<string>>)
    ensures alive.None? <==> !n.cidr.V4?
    ensures alive.Some? ==> Lists(alive.value, Responders(n))
  {
    hide Expansion, Texts;
    var r := ExpandIPv4(n.cidr, n.maxHosts);
    if r.Failed? {
      return None;
    }
    var ips := Texts(r.addresses);
    var order := Enumerate(set ip | ip in ips && n.answers(ip));
    alive := Some(order);
  }

  ghost function Taken(order: seq<string>, i: nat): set<string>
    requires i <= |order|
  {
    set ip | ip in order[..i]
  }

  lemma TakeOne(order: seq<string>, i: nat)
    requires i < |order| && Distinct(order)
    ensures Taken(order, i + 1) == Taken(order, i) + {order[i]} && order[i] !in Taken(order, i)
  {
    assert order[..i + 1] == order[..i] + [order[i]];
  }

  lemma TakeAll(order: seq<string>, all: set<string>)
    requires Lists(order, all)
    ensures Taken(order, |order|) == all && Taken(order, 0) == {}
  {
    assert order[..|order|] == order;
  }

  /** Appends the ARP finds that did not answer a probe. */
  method UnionFinds(alive0: seq<string>, finds: set<string>, ghost responders: set<string>)
    returns (alive: seq<string>, aliveSet: set<string>)
    requires Lists(alive0, responders)
    ensures aliveSet == responders + finds && Lists(alive, aliveSet)
  {
    alive, aliveSet := alive0, set ip | ip in alive0;
    assert aliveSet == responders;
    var order := Enumerate(finds);
    TakeAll(order, finds);
    hide Lists;
    for i := 0 to |order|
      invariant aliveSet == responders + Taken(order, i) && Lists(alive, aliveSet)
    {
      assert order[..i + 1] == order[..i] + [order[i]];
      if order[i] !in aliveSet {
        ListsAppend(alive, aliveSet, order[i]);
        alive := alive + [order[i]];
        aliveSet := aliveSet + {order[i]};
      }
    }
  }

  // ---- the reverse-DNS pass ----

  datatype DNSOnly = DNSOnly(hostID: nat, openPorts: set<int>)

  /** The hits among `ips` with an open port, each with its row and its open ports. */
  ghost predicate Confirms(confirmed: map<string, DNSOnly>, n: Net, hosts: map<HostKey, HostRow>, ips: set<string>) {
    && confirmed.Keys == (set ip | ip in ips && FoundOpen(n.probes(ip)) != {})
    && forall ip | ip in confirmed ::
        && HostKey(n.subnet, ip) in hosts && hosts[HostKey(n.subnet, ip)].id == confirmed[ip].hostID
        && confirmed[ip].openPorts == FoundOpen(n.probes(ip))
  }

  lemma ConfirmOne(confirmed: map<string, DNSOnly>, n: Net, db: Db, db': Db, ips: set<string>, ip: string, id: nat)
    requires Confirms(confirmed, n, db.hosts, ips) && KeepsIds(db, db') && ip !in ips
    requires HostKey(n.subnet, ip) in db'.hosts && db'.hosts[HostKey(n.subnet, ip)].id == id
    ensures var open := FoundOpen(n.probes(ip));
            Confirms(if open == {} then confirmed else confirmed[ip := DNSOnly(id, open)], n, db'.hosts, ips + {ip})
  {
    hide FoundOpen;
  }

  lemma KeepConfirms(confirmed: map<string, DNSOnly>, n: Net, db: Db, db': Db, ips: set<string>)
    requires Confirms(confirmed, n, db.hosts, ips) && KeepsIds(db, db')
    ensures Confirms(confirmed, n, db'.hosts, ips)
  {
    hide FoundOpen;
  }

  /** One PTR hit: recorded as unconfirmed, port-scanned, and confirmed only on an open port. */
  method ScanHit(st: Store, n: Net, ip: string, name: string) returns (id: nat, open: set<int>)
    requires HasSubnet(st.subnets, n.subnet) && UniqueHosts(st.hosts, st.nextHost) && name == NameOf(n, ip)
    modifies st
    ensures var k := HostKey(n.subnet, ip);
            && Effect(old(st.Snapshot()), st.Snapshot(), k, HitRow(At(old(st.hosts), k), n, ip), n.probes(ip), n.guess)
            && k in st.hosts && id == st.hosts[k].id
    ensures open == FoundOpen(n.probes(ip)) && st.scans == old(st.scans) + [id]
  {
    ghost var start, k := st.Snapshot(), HostKey(n.subnet, ip);
    ghost var noted := NotedRow(At(st.hosts, k), name);
    NoteWrites(start, k, name);
    hide UpsertUnconfirmedHost, ScanPorts, HasHost, FoundOpen, UniqueHosts, Effect, EditHost, NotedRow, HasSubnet;
    var r := st.UpsertUnconfirmedHost(n.subnet, ip, name);
    id := r.id;
    ScanEffect(start, st.Snapshot(), k, noted, n.probes(ip), n.guess);
    open := {};
    var found, _, _ := ScanPortRange(st, id, n.probes(ip), n.guess);
    open := found;
    EffectUnique(start, st.Snapshot(), k, noted, n.probes(ip), n.guess);
    EffectId(start, st.Snapshot(), k, noted, n.probes(ip), n.guess);
    if open == {} {
      return;
    }
    ConfirmEffect(start, st.Snapshot(), k, noted, n.probes(ip), n.guess);
    st.ConfirmHostUp(id);
    EffectId(start, st.Snapshot(), k, noted.(status := Up, misses := 0), n.probes(ip), n.guess);
  }

  lemma EffectId(db: Db, db': Db, k: HostKey, row: HostRow, probes: seq<Probe>, guess: int -> string)
    requires Effect(db, db', k, row, probes, guess)
    ensures k in db'.hosts && db'.hosts[k].id == if k in db.hosts then db.hosts[k].id else db.nextHost
  {
    hide NewAt, ScanRow;
  }

  lemma HitsListed(n: Net, candidates: seq<string>)
    requires Lists(candidates, Candidates(n))
    ensures (set ip | ip in candidates && n.ptr(ip).Some?) == Hits(n)
  {
    hide Candidates, Distinct;
  }

  /** The candidates that have a PTR record, in whatever order the map yields them. */
  method ReverseDNSSweep(n: Net, candidates: seq<string>) returns (order: seq<string>)
    requires Lists(candidates, Candidates(n))
    ensures Lists(order, Hits(n))
  {
    HitsListed(n, candidates);
    hide *;
    order := Enumerate(set ip | ip in candidates && n.ptr(ip).Some?);
  }

  lemma HitHasName(n: Net, order: seq<string>, i: nat)
    requires Lists(order, Hits(n)) && i < |order|
    ensures n.ptr(order[i]).Some?
  {
    hide Candidates, Distinct;
    assert order[i] in order && order[i] in Hits(n);
  }

  lemma NoneConfirmed(n: Net, hosts: map<HostKey, HostRow>)
    ensures Confirms(map[], n, hosts, {})
  {
  }

  lemma PassedStore(before: Db, db: Db, n: Net, hinted: set<string>, seen: set<string>)
    requires Passed(before, db, n, hinted, seen)
    ensures HasSubnet(db.subnets, n.subnet) && UniqueHosts(db.hosts, db.nextHost)
  {
  }

  /** Every PTR hit among the candidates. */
  method ScanUnconfirmedByDNS(st: Store, n: Net, candidates: seq<string>) returns (confirmed: map<string, DNSOnly>)
    requires Lists(candidates, Candidates(n))
    requires HasSubnet(st.subnets, n.subnet) && UniqueHosts(st.hosts, st.nextHost)
    modifies st
    ensures Confirms(confirmed, n, st.hosts, Hits(n))
    ensures ScannedOnce(st.Snapshot(), st.scans, old(st.scans), n, Hits(n))
    ensures Passed(old(st.Snapshot()), st.Snapshot(), n, Hits(n), {})
  {
    ghost var before, base := st.Snapshot(), st.scans;
    PassStarts(before, n);
    TraceStarts(before, base, n);
    NoneConfirmed(n, st.hosts);
    hide Passed, Hits, Candidates, KeepsIds, FoundOpen, Distinct, ScannedOnce, Taken, Confirms, Effect, UniqueHosts;
    hide HasSubnet, AsFound, HitRow;
    var order := ReverseDNSSweep(n, candidates);
    confirmed := map[];
    TakeAll(order, Hits(n));
    for i := 0 to |order|
      invariant Passed(before, st.Snapshot(), n, Taken(order, i), {})
      invariant ScannedOnce(st.Snapshot(), st.scans, base, n, Taken(order, i))
      invariant Confirms(confirmed, n, st.hosts, Taken(order, i))
    {
      var ip := order[i];
      HitHasName(n, order, i);
      TakeOne(order, i);
      ghost var start, taken := st.Snapshot(), Taken(order, i);
      PassedStore(before, start, n, taken, {});
      var id, open := ScanHit(st, n, ip, n.ptr(ip).value);
      ghost var k := HostKey(n.subnet, ip);
      HitIsFound(At(start.hosts, k), n, ip);
      FreshPasses(before, start, st.Snapshot(), n, taken, {}, ip, taken + {ip}, {});
      EffectId(start, st.Snapshot(), k, HitRow(At(start.hosts, k), n, ip), n.probes(ip), n.guess);
      assert taken + {} == taken;
      TraceOneMore(before, start, st.Snapshot(), st.scans[..|st.scans| - 1], base, n, taken, {}, ip);
      ConfirmOne(confirmed, n, start, st.Snapshot(), taken, ip, id);
      if open != {} {
        confirmed := confirmed[ip := DNSOnly(id, open)];
      }
    }
  }

  lemma HitIsFound(row: Option<HostRow>, n: Net, ip: string)
    ensures AsFound(row, n, ip, true, false) == HitRow(row, n, ip)
  {
  }

  // ---- the three sources together ----

  datatype Discovery = NotExpanded | Crashed | Discovered(alive: seq<string>, confirmed: map<string, DNSOnly>)

  lemma ConfirmsConfirmed(confirmed: map<string, DNSOnly>, n: Net, hosts: map<HostKey, HostRow>)
    requires Confirms(confirmed, n, hosts, Hits(n))
    ensures confirmed.Keys == Confirmed(n)
  {
    hide Hits, FoundOpen;
  }

  lemma UnseenAreCandidates(n: Net, seen: set<string>)
    requires seen == Responders(n) + n.arpFinds.Keys
    ensures (set ip | ip in Addresses(n) && ip !in seen) == Candidates(n)
    ensures |seen| > |Addresses(n)| <==> Crowded(n)
  {
    hide Addresses;
  }

  /** Main: the combined list has no duplicates and is exactly the responders, the ARP finds and the
      confirmed PTR hits; and it is not made, because the process crashes, if and only if more hosts answered
      than the capped expansion has addresses. */
  method DiscoverAliveHostsAllSources(st: Store, n: Net) returns (r: Discovery)
    requires HasSubnet(st.subnets, n.subnet) && UniqueHosts(st.hosts, st.nextHost)
    modifies st
    ensures r.NotExpanded? <==> !n.cidr.V4?
    ensures r.Crashed? <==> n.cidr.V4? && Crowded(n)
    ensures !r.Discovered? ==> st.Snapshot() == old(st.Snapshot()) && st.scans == old(st.scans)
    ensures r.Discovered? ==>
              && Lists(r.alive, Alive(n)) && Confirms(r.confirmed, n, st.hosts, Hits(n))
              && ScannedOnce(st.Snapshot(), st.scans, old(st.scans), n, Hits(n))
              && Passed(old(st.Snapshot()), st.Snapshot(), n, Hits(n), {})
  {
    hide Passed, UniqueHosts, HasSubnet, Expansion, Texts, Confirms, ScannedOnce, Crowded, Candidates, Responders;
    var responders := DiscoverAliveHosts(n);
    if responders.None? {
      return NotExpanded;
    }
    var alive, aliveSet := UnionFinds(responders.value, n.arpFinds.Keys, Responders(n));
    var range := ExpandIPv4(n.cidr, n.maxHosts);
    AddressesDistinct(n);
    var ips := Texts(range.addresses);
    assert ips == Addresses(n);
    UnseenAreCandidates(n, aliveSet);
    var candidates := UnseenIPStrings(ips, aliveSet);
    if candidates.Panicked? {
      return Crashed;
    }
    HitsElsewhere(n);
    hide Hits, Confirmed, Lists, Addresses;
    var confirmed := ScanUnconfirmedByDNS(st, n, candidates.value);
    ConfirmsConfirmed(confirmed, n, st.hosts);
    var more := Enumerate(confirmed.Keys);
    ListsConcat(alive, more, aliveSet, Confirmed(n));
    r := Discovered(alive + more, confirmed);
  }

  // ---- the live hosts ----

  lemma NoEffect(db: Db, k: HostKey, guess: int -> string)
    requires k in db.hosts
    ensures Effect(db, db, k, db.hosts[k], [], guess)
  {
    assert !NewAt(db, db, db.hosts[k].id);
    assert db.hosts[k := db.hosts[k]] == db.hosts;
  }

  /** A host the reverse-DNS pass confirmed: only a MAC can still be added to it. */
  method FoldDNSConfirmed(st: Store, n: Net, ip: string)
    requires HasSubnet(st.subnets, n.subnet) && HostKey(n.subnet, ip) in st.hosts
    modifies st
    ensures Effect(old(st.Snapshot()), st.Snapshot(), HostKey(n.subnet, ip),
                   FoldRow(old(st.hosts)[HostKey(n.subnet, ip)], n.arp(ip)), [], n.guess)
    ensures st.scans == old(st.scans)
  {
    ghost var start, k := st.Snapshot(), HostKey(n.subnet, ip);
    NoEffect(start, k, n.guess);
    var mac := n.arp(ip);
    if mac != "" {
      SightWrites(start, k, mac, "", "");
      var _ := st.UpsertHost(n.subnet, ip, mac, "", "");
      WroteEffect(start, st.Snapshot(), k, FoldRow(start.hosts[k], mac), n.guess);
    }
  }

  /** A host that answered a probe or an ARP sweep: recorded as up, then port-scanned. */
  method ScanLiveHost(st: Store, n: Net, ip: string) returns (id: nat, open: set<int>)
    requires HasSubnet(st.subnets, n.subnet) && UniqueHosts(st.hosts, st.nextHost)
    modifies st
    ensures var k := HostKey(n.subnet, ip);
            && Effect(old(st.Snapshot()), st.Snapshot(), k,
                      SeenRow(At(old(st.hosts), k), MacOf(n, ip), n.names(ip), VendorOf(n, ip)), n.probes(ip), n.guess)
            && k in st.hosts && id == st.hosts[k].id
    ensures open == FoundOpen(n.probes(ip)) && st.scans == old(st.scans) + [id]
  {
    ghost var start, k := st.Snapshot(), HostKey(n.subnet, ip);
    var mac, vendor := n.arp(ip), "";
    if ip in n.arpFinds {
      if mac == "" {
        mac := n.arpFinds[ip].mac;
      }
      vendor := n.arpFinds[ip].vendor;
    }
    ghost var row := SeenRow(At(st.hosts, k), mac, n.names(ip), vendor);
    SightWrites(start, k, mac, n.names(ip), vendor);
    hide UpsertHost, ScanPorts, HasHost, UniqueHosts, Effect, SeenRow, HasSubnet, FoundOpen;
    var r := st.UpsertHost(n.subnet, ip, mac, n.names(ip), vendor);
    id := r.id;
    ScanEffect(start, st.Snapshot(), k, row, n.probes(ip), n.guess);
    var found, _, _ := ScanPortRange(st, id, n.probes(ip), n.guess);
    open := found;
    EffectId(start, st.Snapshot(), k, row, n.probes(ip), n.guess);
  }

  lemma KeepRowIds(ids: map<string, nat>, subnet: nat, db: Db, db': Db, ip: string, id: nat)
    requires RowIds(ids, subnet, db.hosts) && KeepsIds(db, db')
    requires HostKey(subnet, ip) in db'.hosts && db'.hosts[HostKey(subnet, ip)].id == id
    ensures RowIds(ids[ip := id], subnet, db'.hosts)
  {
  }

  /** What the loop over the live hosts has done after those in `seen`. */
  ghost predicate Recorded(before: Db, db: Db, scans: seq<nat>, base: seq<nat>, n: Net, seen: set<string>,
                           confirmed: map<string, DNSOnly>, ids: map<string, nat>)
  {
    && Passed(before, db, n, Hits(n), seen) && ScannedOnce(db, scans, base, n, Hits(n) + seen)
    && Confirms(confirmed, n, db.hosts, Hits(n)) && ids.Keys == seen && RowIds(ids, n.subnet, db.hosts)
  }

  lemma FoldRecords(before: Db, db: Db, db': Db, scans: seq<nat>, base: seq<nat>, n: Net, seen: set<string>,
                    confirmed: map<string, DNSOnly>, ids: map<string, nat>, ip: string)
    requires Recorded(before, db, scans, base, n, seen, confirmed, ids) && ip in confirmed && ip !in seen
    requires HostKey(n.subnet, ip) in db.hosts
    requires Effect(db, db', HostKey(n.subnet, ip), FoldRow(db.hosts[HostKey(n.subnet, ip)], n.arp(ip)), [], n.guess)
    ensures Recorded(before, db', scans, base, n, seen + {ip}, confirmed, ids[ip := confirmed[ip].hostID])
  {
    hide Confirms, Hits, Effect, Passed, ScannedOnce, FoldRow, FoundOpen, KeepsIds, RowIds, Framed, IdsAt;
    ConfirmedRow(confirmed, n, db.hosts, ip);
    FoldPasses(before, db, db', n, Hits(n), seen, ip);
    ScannedStored(before, db, n, Hits(n), seen);
    TraceKept(db, db', scans, base, n, Hits(n) + seen);
    AlreadyIn(Hits(n), seen, ip);
    KeepConfirms(confirmed, n, db, db', Hits(n));
    SameId(db, db', HostKey(n.subnet, ip));
    KeepRowIds(ids, n.subnet, db, db', ip, confirmed[ip].hostID);
  }

  lemma AlreadyIn(hinted: set<string>, seen: set<string>, ip: string)
    requires ip in hinted
    ensures hinted + (seen + {ip}) == hinted + seen
  {
  }

  lemma ConfirmedRow(confirmed: map<string, DNSOnly>, n: Net, hosts: map<HostKey, HostRow>, ip: string)
    requires Confirms(confirmed, n, hosts, Hits(n)) && ip in confirmed
    ensures ip in Hits(n) && HostKey(n.subnet, ip) in hosts
    ensures hosts[HostKey(n.subnet, ip)].id == confirmed[ip].hostID
    ensures confirmed[ip].openPorts == FoundOpen(n.probes(ip))
  {
    hide Hits, FoundOpen;
  }

  lemma SameId(db: Db, db': Db, k: HostKey)
    requires KeepsIds(db, db') && k in db.hosts
    ensures k in db'.hosts && db'.hosts[k].id == db.hosts[k].id
  {
  }

  lemma LiveRecords(before: Db, db: Db, db': Db, scans: seq<nat>, base: seq<nat>, n: Net, seen: set<string>,
                    confirmed: map<string, DNSOnly>, ids: map<string, nat>, ip: string, id: nat)
    requires Recorded(before, db, scans, base, n, seen, confirmed, ids) && ip !in Hits(n) + seen
    requires var k := HostKey(n.subnet, ip);
             && Effect(db, db', k, SeenRow(At(db.hosts, k), MacOf(n, ip), n.names(ip), VendorOf(n, ip)),
                       n.probes(ip), n.guess)
             && k in db'.hosts && id == db'.hosts[k].id
    ensures Recorded(before, db', scans + [id], base, n, seen + {ip}, confirmed, ids[ip := id])
  {
    var k := HostKey(n.subnet, ip);
    var row := SeenRow(At(db.hosts, k), MacOf(n, ip), n.names(ip), VendorOf(n, ip));
    assert AsFound(At(db.hosts, k), n, ip, ip in Hits(n), ip in seen + {ip}) == row;
    hide Hits, Effect, Passed, ScannedOnce, FoundOpen, KeepsIds, RowIds, Confirms, AsFound, SeenRow, MacOf, VendorOf;
    FreshPasses(before, db, db', n, Hits(n), seen, ip, Hits(n), seen + {ip});
    EffectId(db, db', k, row, n.probes(ip), n.guess);
    TraceOneMore(before, db, db', scans, base, n, Hits(n), seen, ip);
    assert Hits(n) + seen + {ip} == Hits(n) + (seen + {ip});
    KeepConfirms(confirmed, n, db, db', Hits(n));
    KeepRowIds(ids, n.subnet, db, db', ip, id);
  }

  /** One live host: port-scanned here unless the reverse-DNS pass already did. */
  method RecordOne(st: Store, n: Net, ip: string, confirmed: map<string, DNSOnly>, ids: map<string, nat>,
                   ghost before: Db, ghost base: seq<nat>, ghost seen: set<string>)
    returns (ids': map<string, nat>, open: set<int>)
    requires Recorded(before, st.Snapshot(), st.scans, base, n, seen, confirmed, ids)
    requires ip !in seen && (ip in Hits(n) ==> ip in confirmed)
    modifies st
    ensures Recorded(before, st.Snapshot(), st.scans, base, n, seen + {ip}, confirmed, ids')
    ensures open == FoundOpen(n.probes(ip))
  {
    PassedStore(before, st.Snapshot(), n, Hits(n), seen);
    hide Passed, Hits, Effect, FoldRow, SeenRow, FoundOpen, ScannedOnce, RowIds, UniqueHosts, HasSubnet;
    ghost var start, scans := st.Snapshot(), st.scans;
    if ip in confirmed {
      assert HostKey(n.subnet, ip) in start.hosts && confirmed[ip].openPorts == FoundOpen(n.probes(ip));
      hide Recorded;
      FoldDNSConfirmed(st, n, ip);
      FoldRecords(before, start, st.Snapshot(), scans, base, n, seen, confirmed, ids, ip);
      return ids[ip := confirmed[ip].hostID], confirmed[ip].openPorts;
    }
    hide Recorded;
    var id;
    id, open := ScanLiveHost(st, n, ip);
    LiveRecords(before, start, st.Snapshot(), scans, base, n, seen, confirmed, ids, ip, id);
    ids' := ids[ip := id];
  }

  lemma NextAlive(n: Net, alive: seq<string>, i: nat, confirmed: map<string, DNSOnly>, hosts: map<HostKey, HostRow>)
    requires Lists(alive, Alive(n)) && i < |alive| && Confirms(confirmed, n, hosts, Hits(n))
    ensures Taken(alive, i + 1) == Taken(alive, i) + {alive[i]} && alive[i] !in Taken(alive, i)
    ensures alive[i] in Hits(n) ==> alive[i] in confirmed
  {
    TakeOne(alive, i);
    ConfirmsConfirmed(confirmed, n, hosts);
    HitsElsewhere(n);
    hide Hits, Confirmed, Responders, Taken;
    assert alive[i] in alive && alive[i] in Alive(n);
  }

  lemma OpenOneMore(n: Net, ips: set<string>, ip: string)
    ensures OpenIn(n, ips + {ip}) == OpenIn(n, ips) + FoundOpen(n.probes(ip))
  {
    hide FoundOpen;
    forall p | p in FoundOpen(n.probes(ip)) ensures p in OpenIn(n, ips + {ip}) {
      assert ip in ips + {ip};
    }
  }

  /** Records each live host, and port-scans all but those the reverse-DNS pass already handled. */
  method RecordAlive(st: Store, n: Net, alive: seq<string>, confirmed: map<string, DNSOnly>, ghost before: Db,
                     ghost base: seq<nat>)
    returns (seen: set<string>, hostIDs: map<string, nat>, union: set<int>)
    requires Lists(alive, Alive(n)) && Confirms(confirmed, n, st.hosts, Hits(n))
    requires Passed(before, st.Snapshot(), n, Hits(n), {})
    requires ScannedOnce(st.Snapshot(), st.scans, base, n, Hits(n))
    modifies st
    ensures seen == Alive(n) && union == OpenIn(n, seen)
    ensures Recorded(before, st.Snapshot(), st.scans, base, n, seen, confirmed, hostIDs)
  {
    seen, hostIDs, union := {}, map[], {};
    TakeAll(alive, Alive(n));
    assert Hits(n) + {} == Hits(n);
    hide Passed, Hits, Alive, Lists, ScannedOnce, FoundOpen, Confirms, Taken;
    for i := 0 to |alive|
      invariant seen == Taken(alive, i) && union == OpenIn(n, seen)
      invariant Recorded(before, st.Snapshot(), st.scans, base, n, seen, confirmed, hostIDs)
    {
      NextAlive(n, alive, i, confirmed, st.hosts);
      OpenOneMore(n, seen, alive[i]);
      hide Recorded;
      var open;
      hostIDs, open := RecordOne(st, n, alive[i], confirmed, hostIDs, before, base, seen);
      seen, union := seen + {alive[i]}, union + open;
    }
  }

  // ---- the cycle ----

  /** The hosts the cycle reports as down: up before it, not alive, and on their `threshold`-th miss. */
  ghost predicate ReportsDown(down: seq<nat>, before: Db, n: Net, threshold: nat) {
    exists order: seq<HostKey> ::
      Lists(order, WentDown(before, n.subnet, Alive(n), threshold)) && down == IdsOf(before.hosts, order)
  }

  lemma DownReported(down: seq<nat>, order: seq<HostKey>, before: Db, mid: Db, n: Net, threshold: nat)
    requires Passed(before, mid, n, Hits(n), Alive(n))
    requires Lists(order, WentDown(mid, n.subnet, Alive(n), threshold)) && down == IdsOf(mid.hosts, order)
    ensures ReportsDown(down, before, n, threshold)
  {
    SameDown(before, mid, n, threshold);
    hide Passed, Alive, Hits, WentDown;
    forall i | 0 <= i < |order|
      ensures order[i] in before.hosts && mid.hosts[order[i]].id == before.hosts[order[i]].id
    {
      assert order[i] in order;
    }
    assert down == IdsOf(before.hosts, order);
  }

  /** The sweep that ends the recording part of a cycle. */
  method SweepTheRest(st: Store, n: Net, threshold: nat, seen: set<string>, ghost before: Db, ghost base: seq<nat>,
                      ghost confirmed: map<string, DNSOnly>, ghost ids: map<string, nat>)
    returns (down: seq<nat>)
    requires Recorded(before, st.Snapshot(), st.scans, base, n, Alive(n), confirmed, ids) && seen == Alive(n)
    modifies st
    ensures Cycled(before, st.Snapshot(), n, threshold, [], ids)
    ensures ScannedOnce(st.Snapshot(), st.scans, base, n, Alive(n) + Hits(n))
    ensures ReportsDown(down, before, n, threshold)
  {
    ghost var mid := st.Snapshot();
    assert Hits(n) + Alive(n) == Alive(n) + Hits(n);
    ScannedStored(before, mid, n, Hits(n), Alive(n));
    hide Alive, Hits, Cycled, ScannedOnce, WentDown, SweepMissing, Confirms, RowIds, Lists, IdsOf, KeepsIds;
    SweepCycles(before, mid, n, threshold, ids);
    SweepKeepsIds(before, mid, n, threshold);
    ghost var order;
    down, order := st.SweepMissingHosts(n.subnet, seen, threshold);
    DownReported(down, order, before, mid, n, threshold);
    hide Passed;
    TraceKept(mid, st.Snapshot(), st.scans, base, n, Alive(n) + Hits(n));
  }

  lemma SweepKeepsIds(before: Db, db: Db, n: Net, threshold: nat)
    requires Passed(before, db, n, Hits(n), Alive(n))
    ensures KeepsIds(db, SweepMissing(db, n.subnet, Alive(n), threshold))
  {
    SweepFramed(before, db, n, Alive(n), threshold);
  }

  lemma NoneAlive(n: Net)
    requires |Alive(n)| == 0
    ensures Alive(n) == {} && Hits(n) + Alive(n) == Hits(n) && Reports(n) == []
  {
    assert OpenIn(n, {}) == {};
    hide Hits, Responders, Confirmed;
  }

  /** Nothing is left to record when nobody is alive. */
  lemma NobodyRecorded(before: Db, db: Db, scans: seq<nat>, base: seq<nat>, n: Net, confirmed: map<string, DNSOnly>)
    requires Passed(before, db, n, Hits(n), {}) && ScannedOnce(db, scans, base, n, Hits(n))
    requires Confirms(confirmed, n, db.hosts, Hits(n))
    ensures Recorded(before, db, scans, base, n, {}, confirmed, map[])
  {
    assert Hits(n) + {} == Hits(n);
    hide Hits, Passed, ScannedOnce, Confirms;
  }

  /** What a cycle returns, if the process survives it. */
  datatype Outcome = Unexpanded | Crash | Finished(seen: nat, down: seq<nat>)

  /** Main: a cycle crashes, before it has written anything, if and only if its discovery does. Otherwise every
      live host and every PTR hit is port-scanned exactly once and nothing else is; every row of every table
      ends up as `Cycled` says; and the hosts reported down are those on their last allowed miss. */
  method ScanSubnetNmap(st: Store, n: Net, threshold: nat) returns (r: Outcome, ghost ids: map<string, nat>)
    requires HasSubnet(st.subnets, n.subnet) && UniqueHosts(st.hosts, st.nextHost)
    modifies st
    ensures r.Unexpanded? <==> !n.cidr.V4?
    ensures r.Crash? <==> n.cidr.V4? && Crowded(n)
    ensures !r.Finished? ==> st.Snapshot() == old(st.Snapshot()) && st.scans == old(st.scans)
    ensures r.Finished? ==>
              && r.seen == |Alive(n)| && ReportsDown(r.down, old(st.Snapshot()), n, threshold)
              && ScannedOnce(st.Snapshot(), st.scans, old(st.scans), n, Alive(n) + Hits(n))
              && Cycled(old(st.Snapshot()), st.Snapshot(), n, threshold, Reports(n), ids)
  {
    hide Passed, Cycled, UniqueHosts, HasSubnet, ReportsDown, Lists, Alive, Hits, ScannedOnce, EnrichAll, Confirms;
    hide Recorded, Crowded;
    ghost var before, base := st.Snapshot(), st.scans;
    ids := map[];
    var found := DiscoverAliveHostsAllSources(st, n);
    if !found.Discovered? {
      r := if found.Crashed? then Crash else Unexpanded;
      return;
    }
    var alive, confirmed := found.alive, found.confirmed;
    ListsSize(alive, Alive(n));
    if |alive| == 0 {
      NoneAlive(n);
      NobodyRecorded(before, st.Snapshot(), st.scans, base, n, confirmed);
      var down := SweepTheRest(st, n, threshold, {}, before, base, confirmed, ids);
      return Finished(0, down), ids;
    }
    var seen, hostIDs, union := RecordAlive(st, n, alive, confirmed, before, base);
    ids := hostIDs;
    var down := SweepTheRest(st, n, threshold, seen, before, base, confirmed, ids);
    r := Finished(|seen|, down);
    if union == {} {
      return;
    }
    if n.enrichment.Some? {
      Enrich(st, n, n.enrichment.value, hostIDs, before, base, threshold);
    }
  }

  /** nmap's results write over MACs, vendors, services and versions, and can open ports; none of it changes
      who is up, and it scans nothing itself. */
  method Enrich(st: Store, n: Net, results: seq<NmapHost>, hostIDs: map<string, nat>, ghost before: Db,
                ghost base: seq<nat>, ghost threshold: nat)
    requires Cycled(before, st.Snapshot(), n, threshold, [], hostIDs)
    requires ScannedOnce(st.Snapshot(), st.scans, base, n, Alive(n) + Hits(n))
    modifies st
    ensures st.Snapshot() == EnrichAll(old(st.Snapshot()), n.subnet, results, hostIDs) && st.scans == old(st.scans)
    ensures Cycled(before, st.Snapshot(), n, threshold, results, hostIDs)
    ensures ScannedOnce(st.Snapshot(), st.scans, base, n, Alive(n) + Hits(n))
  {
    ghost var start := st.Snapshot();
    CycleStores(before, start, n, threshold, hostIDs);
    hide Cycled, Alive, Hits, EnrichAll, ScannedOnce, KeepsIds;
    EnrichmentCycles(before, start, n, threshold, results, hostIDs);
    RunEnrichment(st, n.subnet, results, hostIDs);
    TraceKept(start, st.Snapshot(), st.scans, base, n, Alive(n) + Hits(n));
  }

  lemma CycleStores(before: Db, db: Db, n: Net, threshold: nat, ids: map<string, nat>)
    requires Cycled(before, db, n, threshold, [], ids)
    ensures forall x | x in Alive(n) + Hits(n) :: HostKey(n.subnet, x) in db.hosts
  {
    hide Alive, Hits, AsFound, PortCycled, Framed, StillAcked;
    forall x | x in Alive(n) + Hits(n) ensures HostKey(n.subnet, x) in db.hosts {
      assert HostCycled(before, db, n, threshold, [], ids, HostKey(n.subnet, x));
    }
  }
}
