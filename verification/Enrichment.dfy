/** The enrichment pass: what nmap's reports add to hosts a cycle has already recorded. */
module Enrichment {
  import opened Options
  import opened Tables
  import opened NmapOutput
  import opened Stores
  import opened Reflag
  import opened Runs
  import opened PortScan

  function ReportKey(host: nat, p: NmapPort): PortKey {
    PortKey(host, p.port, "tcp")
  }

  function EnrichPorts(db: Db, host: nat, ports: seq<NmapPort>): Db {
    if ports == [] then db
    else
      var p := ports[|ports| - 1];
      Recorded(EnrichPorts(db, host, ports[..|ports| - 1]), ReportKey(host, p), p.service, p.banner, p.product,
               p.version)
  }

  /** A MAC or vendor nmap saw goes into the host row. */
  function AfterText(db: Db, subnet: nat, n: NmapHost): Db {
    if n.mac != "" || n.vendor != "" then UpsertHost(db, subnet, n.ip, n.mac, "", n.vendor) else db
  }

  /** Then its ports are recorded like any other finding. */
  function EnrichHost(db: Db, subnet: nat, h: NmapHost, ids: map<string, nat>): Db {
    if h.ip !in ids then db
    else
      EnrichPorts(AfterText(db, subnet, h), ids[h.ip], h.ports)
  }

  function EnrichAll(db: Db, subnet: nat, results: seq<NmapHost>, ids: map<string, nat>): Db {
    if results == [] then db
    else EnrichHost(EnrichAll(db, subnet, results[..|results| - 1], ids), subnet, results[|results| - 1], ids)
  }

  method RunEnrichPorts(st: Store, host: nat, ports: seq<NmapPort>)
    modifies st
    ensures st.Snapshot() == EnrichPorts(old(st.Snapshot()), host, ports) && st.scans == old(st.scans)
  {
    hide Recorded, RecordEvents;
    ghost var start := st.Snapshot();
    for i := 0 to |ports|
      invariant st.Snapshot() == EnrichPorts(start, host, ports[..i]) && st.scans == old(st.scans)
    {
      assert ports[..i + 1][..i] == ports[..i];
      var p := ports[i];
      var _ := RecordOpenPort(st, host, p.port, p.service, p.banner, p.product, p.version);
    }
    assert ports[..|ports|] == ports;
  }

  method RunEnrichment(st: Store, subnet: nat, results: seq<NmapHost>, ids: map<string, nat>)
    modifies st
    ensures st.Snapshot() == EnrichAll(old(st.Snapshot()), subnet, results, ids) && st.scans == old(st.scans)
  {
    hide EnrichPorts, UpsertHost;
    ghost var start := st.Snapshot();
    for i := 0 to |results|
      invariant st.Snapshot() == EnrichAll(start, subnet, results[..i], ids) && st.scans == old(st.scans)
    {
      assert results[..i + 1][..i] == results[..i];
      var h := results[i];
      if h.ip !in ids {
        continue;
      }
      if h.mac != "" || h.vendor != "" {
        var _ := st.UpsertHost(subnet, h.ip, h.mac, "", h.vendor);
      }
      RunEnrichPorts(st, ids[h.ip], h.ports);
    }
    assert results[..|results|] == results;
  }

  // ---- what the reports leave in one row ----

  /** All the reports of one port: the last service, the last non-empty banner, product and version. */
  datatype Detail = Detail(touched: bool, service: string, banner: string, product: string, version: string)

  const NoDetail := Detail(false, "", "", "", "")

  function AddReport(d: Detail, p: NmapPort): Detail {
    Detail(true, p.service, Over(d.banner, p.banner), Over(d.product, p.product), Over(d.version, p.version))
  }

  function PortsDetail(d: Detail, host: nat, ports: seq<NmapPort>, k: PortKey): Detail {
    if ports == [] then d
    else
      var e, p := PortsDetail(d, host, ports[..|ports| - 1], k), ports[|ports| - 1];
      if ReportKey(host, p) == k then AddReport(e, p) else e
  }

  function DetailAt(results: seq<NmapHost>, ids: map<string, nat>, k: PortKey): Detail {
    if results == [] then NoDetail
    else
      var d, h := DetailAt(results[..|results| - 1], ids, k), results[|results| - 1];
      if h.ip in ids then PortsDetail(d, ids[h.ip], h.ports, k) else d
  }

  function Detailed(row: PortRow, d: Detail): PortRow {
    if d.touched then Observed(row, d.service, d.banner, d.product, d.version) else row
  }

  /** The row of `k` in `db'` is that of `db` with the reports `d` written over it. */
  ghost predicate DetailedAt(db: Db, db': Db, k: PortKey, d: Detail) {
    && (k in db'.ports <==> k in db.ports || d.touched)
    && (k in db'.ports ==> db'.ports[k] == Detailed(if k in db.ports then db.ports[k] else NoPort, d))
    && (!d.touched ==> d == NoDetail)
  }

  ghost predicate HostsStay(db: Db, db': Db) {
    forall id | HasHost(db.hosts, id) :: HasHost(db'.hosts, id)
  }

  lemma RecordedStays(db: Db, k: PortKey, service: string, banner: string, product: string, version: string)
    ensures HostsStay(db, Recorded(db, k, service, banner, product, version))
  {
    var db' := Recorded(db, k, service, banner, product, version);
    forall id | HasHost(db.hosts, id) ensures HasHost(db'.hosts, id) {
      var h :| h in db.hosts && db.hosts[h].id == id;
      assert h in db'.hosts && db'.hosts[h].id == id;
    }
  }

  lemma RecordDetails(db: Db, db1: Db, host: nat, p: NmapPort, k: PortKey, d: Detail)
    requires DetailedAt(db, db1, k, d) && HasHost(db1.hosts, host)
    ensures DetailedAt(db, Recorded(db1, ReportKey(host, p), p.service, p.banner, p.product, p.version), k,
                       if ReportKey(host, p) == k then AddReport(d, p) else d)
  {
    assert db1.ports.Keys <= Recorded(db1, ReportKey(host, p), p.service, p.banner, p.product, p.version).ports.Keys;
    hide HasHost;
  }

  lemma {:induction false} PortsDetails(db: Db, db1: Db, host: nat, ports: seq<NmapPort>, k: PortKey, d: Detail)
    requires DetailedAt(db, db1, k, d) && HasHost(db1.hosts, host)
    ensures DetailedAt(db, EnrichPorts(db1, host, ports), k, PortsDetail(d, host, ports, k))
    ensures HostsStay(db1, EnrichPorts(db1, host, ports))
  {
    if ports != [] {
      hide Recorded, HasHost, DetailedAt, AddReport;
      var init, p := ports[..|ports| - 1], ports[|ports| - 1];
      PortsDetails(db, db1, host, init, k, d);
      var mid := EnrichPorts(db1, host, init);
      RecordDetails(db, mid, host, p, k, PortsDetail(d, host, init, k));
      RecordedStays(mid, ReportKey(host, p), p.service, p.banner, p.product, p.version);
    }
  }

  lemma UpsertStays(db: Db, subnet: nat, ip: string, mac: string, vendor: string)
    ensures HostsStay(db, UpsertHost(db, subnet, ip, mac, "", vendor))
    ensures UpsertHost(db, subnet, ip, mac, "", vendor).ports == db.ports
  {
    var db' := UpsertHost(db, subnet, ip, mac, "", vendor);
    forall id | HasHost(db.hosts, id) ensures HasHost(db'.hosts, id) {
      var h :| h in db.hosts && db.hosts[h].id == id;
      assert h in db'.hosts && db'.hosts[h].id == id;
    }
  }

  /** Main: every reported port of a recorded host ends open under its last reported service, with the last
      non-empty banner, product and version reported, or else those the row had; no other row changes. */
  lemma {:induction false} EnrichmentDetails(db: Db, subnet: nat, results: seq<NmapHost>, ids: map<string, nat>,
                                             k: PortKey)
    requires forall ip | ip in ids :: HasHost(db.hosts, ids[ip])
    ensures DetailedAt(db, EnrichAll(db, subnet, results, ids), k, DetailAt(results, ids, k))
    ensures HostsStay(db, EnrichAll(db, subnet, results, ids))
  {
    if results != [] {
      var init, h := results[..|results| - 1], results[|results| - 1];
      EnrichmentDetails(db, subnet, init, ids, k);
      var mid := EnrichAll(db, subnet, init, ids);
      hide UpsertHost, EnrichPorts, HasHost, PortsDetail;
      if h.ip in ids {
        UpsertStays(mid, subnet, h.ip, h.mac, h.vendor);
        var seen := AfterText(mid, subnet, h);
        assert HasHost(seen.hosts, ids[h.ip]);
        PortsDetails(db, seen, ids[h.ip], h.ports, k, DetailAt(init, ids, k));
      }
    }
  }

  // ---- what the reports leave in one host ----

  /** All the reports of one address: the last non-empty MAC and vendor. */
  datatype Sighting = Sighting(mac: string, vendor: string)

  function SightingAt(results: seq<NmapHost>, ids: map<string, nat>, ip: string): Sighting {
    if results == [] then Sighting("", "")
    else
      var s, h := SightingAt(results[..|results| - 1], ids, ip), results[|results| - 1];
      if h.ip == ip && ip in ids then Sighting(Over(s.mac, h.mac), Over(s.vendor, h.vendor)) else s
  }

  ghost predicate SameText(h: HostRow, h': HostRow) {
    h'.mac == h.mac && h'.vendor == h.vendor && h'.hostname == h.hostname && h'.notes == h.notes
  }

  lemma {:induction false} PortsKeepText(db: Db, host: nat, ports: seq<NmapPort>, k: HostKey)
    requires k in db.hosts
    ensures k in EnrichPorts(db, host, ports).hosts && SameText(db.hosts[k], EnrichPorts(db, host, ports).hosts[k])
  {
    if ports != [] {
      PortsKeepText(db, host, ports[..|ports| - 1], k);
    }
  }

  /** What was last reported, written over a row's MAC and vendor. */
  function Sighted(h: HostRow, s: Sighting): HostRow {
    h.(mac := Over(h.mac, s.mac), vendor := Over(h.vendor, s.vendor))
  }

  ghost predicate SeenAs(h: HostRow, h': HostRow, s: Sighting) {
    SameText(Sighted(h, s), h')
  }

  lemma SeenOnceMore(db: Db, subnet: nat, ip: string, n: NmapHost, h: HostRow, s: Sighting)
    requires HostKey(subnet, ip) in db.hosts && SeenAs(h, db.hosts[HostKey(subnet, ip)], s)
    ensures var db' := UpsertHost(db, subnet, n.ip, n.mac, "", n.vendor);
            && HostKey(subnet, ip) in db'.hosts
            && SeenAs(h, db'.hosts[HostKey(subnet, ip)],
                      if n.ip == ip then Sighting(Over(s.mac, n.mac), Over(s.vendor, n.vendor)) else s)
  {
  }

  lemma {:induction false} EnrichmentShows(
    db: Db, subnet: nat, results: seq<NmapHost>, ids: map<string, nat>, ip: string)
    requires HostKey(subnet, ip) in db.hosts
    ensures var k, db' := HostKey(subnet, ip), EnrichAll(db, subnet, results, ids);
            k in db'.hosts && SeenAs(db.hosts[k], db'.hosts[k], SightingAt(results, ids, ip))
  {
    if results != [] {
      var init, n, k := results[..|results| - 1], results[|results| - 1], HostKey(subnet, ip);
      EnrichmentShows(db, subnet, init, ids, ip);
      var mid := EnrichAll(db, subnet, init, ids);
      hide EnrichPorts, UpsertHost;
      if n.ip in ids {
        SeenOnceMore(mid, subnet, ip, n, db.hosts[k], SightingAt(init, ids, ip));
        var seen := AfterText(mid, subnet, n);
        PortsKeepText(seen, ids[n.ip], n.ports, k);
      }
    }
  }

  /** Main: a stored host ends with the last non-empty MAC and vendor reported for it, or else its own: text
      it had is kept if and only if nothing else was last reported. */
  lemma EnrichmentOverwritesHosts(
    db: Db, subnet: nat, results: seq<NmapHost>, ids: map<string, nat>, ip: string)
    requires HostKey(subnet, ip) in db.hosts
    ensures var k, s := HostKey(subnet, ip), SightingAt(results, ids, ip);
            var db' := EnrichAll(db, subnet, results, ids);
            && k in db'.hosts
            && var h, h' := db.hosts[k], db'.hosts[k];
              && SeenAs(h, h', s)
              && (h'.mac == Fill(h.mac, s.mac) <==> h.mac == "" || s.mac == "" || s.mac == h.mac)
              && (h'.vendor == Fill(h.vendor, s.vendor) <==> h.vendor == "" || s.vendor == "" || s.vendor == h.vendor)
  {
    hide EnrichAll, SightingAt;
    EnrichmentShows(db, subnet, results, ids, ip);
  }

  /** A report that overwrites the MAC the ARP table gave. */
  lemma EnrichmentCanOverwrite(db: Db, subnet: nat, ip: string, id: nat)
    requires HostKey(subnet, ip) in db.hosts && db.hosts[HostKey(subnet, ip)].mac == "aa"
    ensures var k, db' := HostKey(subnet, ip), EnrichAll(db, subnet, [NmapHost(ip, "bb", "", "", [])], map[ip := id]);
            k in db'.hosts && db'.hosts[k].mac == "bb"
  {
  }

  // ---- the whole host table ----

  /** `ids` names the host row of each of its addresses. */
  ghost predicate RowIds(ids: map<string, nat>, subnet: nat, hosts: map<HostKey, HostRow>) {
    forall ip | ip in ids :: HostKey(subnet, ip) in hosts && hosts[HostKey(subnet, ip)].id == ids[ip]
  }

  ghost predicate AllLive(ids: map<string, nat>, subnet: nat, hosts: map<HostKey, HostRow>) {
    forall ip | ip in ids && HostKey(subnet, ip) in hosts ::
      hosts[HostKey(subnet, ip)].status == Up && hosts[HostKey(subnet, ip)].misses == 0
  }

  lemma RecordEffect(db: Db, k: PortKey, service: string, banner: string, product: string, version: string)
    requires HasHost(db.hosts, k.host)
    ensures var db' := Recorded(db, k, service, banner, product, version);
            && db' == db.(hosts := db'.hosts, ports := db'.ports) && db'.ports.Keys == db.ports.Keys + {k}
            && db'.hosts == (if k in db.ports then db.hosts else EditHost(db, k.host, SetAck(false)).hosts)
            && (forall l | l in db.ports && l != k :: db'.ports[l] == db.ports[l])
  {
  }

  lemma {:induction false} EnrichPortsEffect(db: Db, host: nat, ports: seq<NmapPort>)
    requires HasHost(db.hosts, host)
    ensures var db' := EnrichPorts(db, host, ports);
            && db' == db.(hosts := db'.hosts, ports := db'.ports) && db.ports.Keys <= db'.ports.Keys
            && db'.hosts == (if NewAt(db, db', host) then EditHost(db, host, SetAck(false)).hosts else db.hosts)
            && (forall k: PortKey | k.host != host :: At(db'.ports, k) == At(db.ports, k))
  {
    if ports != [] {
      var init, p := ports[..|ports| - 1], ports[|ports| - 1];
      EnrichPortsEffect(db, host, init);
      var mid := EnrichPorts(db, host, init);
      ClearKeepsHosts(db, host);
      RecordEffect(mid, ReportKey(host, p), p.service, p.banner, p.product, p.version);
      hide Recorded, EditHost, HasHost;
    }
  }

  /** Of the recorded hosts the MAC and vendor last reported, and an acknowledgement lost to a new port row;
      of the others nothing. */
  ghost predicate HostsEnriched(db: Db, db': Db, subnet: nat, results: seq<NmapHost>, ids: map<string, nat>) {
    && db' == db.(hosts := db'.hosts, ports := db'.ports) && db'.hosts.Keys == db.hosts.Keys
    && db.ports.Keys <= db'.ports.Keys
    && forall k | k in db.hosts ::
        db'.hosts[k] ==
          if k.subnet == subnet && k.ip in ids
          then Sighted(db.hosts[k], SightingAt(results, ids, k.ip))
                 .(acked := db.hosts[k].acked && !NewAt(db, db', db.hosts[k].id))
          else db.hosts[k]
  }

  lemma SightedIds(db: Db, db': Db, subnet: nat, results: seq<NmapHost>, ids: map<string, nat>)
    requires HostsEnriched(db, db', subnet, results, ids) && UniqueHosts(db.hosts, db.nextHost)
    requires RowIds(ids, subnet, db.hosts) && AllLive(ids, subnet, db.hosts)
    ensures UniqueHosts(db'.hosts, db'.nextHost) && RowIds(ids, subnet, db'.hosts) && AllLive(ids, subnet, db'.hosts)
  {
    hide NewAt, SightingAt;
    assert forall k | k in db.hosts :: db'.hosts[k].id == db.hosts[k].id;
  }

  lemma TextEffect(db: Db, subnet: nat, n: NmapHost)
    requires HostKey(subnet, n.ip) in db.hosts && UniqueHosts(db.hosts, db.nextHost)
    requires db.hosts[HostKey(subnet, n.ip)].status == Up && db.hosts[HostKey(subnet, n.ip)].misses == 0
    ensures var k := HostKey(subnet, n.ip);
            && AfterText(db, subnet, n)
               == db.(hosts := db.hosts[k := Sighted(db.hosts[k], Sighting(n.mac, n.vendor))])
            && HasHost(AfterText(db, subnet, n).hosts, db.hosts[k].id)
            && UniqueHosts(AfterText(db, subnet, n).hosts, db.nextHost)
  {
    var k, seen := HostKey(subnet, n.ip), AfterText(db, subnet, n);
    PutHost(db.hosts, db.nextHost, k, Sighted(db.hosts[k], Sighting(n.mac, n.vendor)));
    hide UniqueHosts, HasSubnet;
    assert seen.hosts == db.hosts[k := Sighted(db.hosts[k], Sighting(n.mac, n.vendor))];
    assert k in seen.hosts && seen.hosts[k].id == db.hosts[k].id;
  }

  /** One report about a recorded host touches only its row, and the port rows of that host. */
  lemma EnrichHostEffect(db: Db, subnet: nat, n: NmapHost, ids: map<string, nat>)
    requires n.ip in ids && RowIds(ids, subnet, db.hosts) && AllLive(ids, subnet, db.hosts)
    requires UniqueHosts(db.hosts, db.nextHost)
    ensures var db', k := EnrichHost(db, subnet, n, ids), HostKey(subnet, n.ip);
            && db' == db.(hosts := db'.hosts, ports := db'.ports) && db.ports.Keys <= db'.ports.Keys
            && db'.hosts == db.hosts[k := Sighted(db.hosts[k], Sighting(n.mac, n.vendor))
                                            .(acked := db.hosts[k].acked && !NewAt(db, db', ids[n.ip]))]
            && (forall p: PortKey | p.host != ids[n.ip] :: At(db'.ports, p) == At(db.ports, p))
  {
    var k, id := HostKey(subnet, n.ip), ids[n.ip];
    var row := Sighted(db.hosts[k], Sighting(n.mac, n.vendor));
    TextEffect(db, subnet, n);
    var seen := AfterText(db, subnet, n);
    EditHostAt(seen, k, SetAck(false));
    EnrichPortsEffect(seen, id, n.ports);
    assert EnrichHost(db, subnet, n, ids) == EnrichPorts(seen, id, n.ports);
    hide *;
    AckFollows(db, seen, EnrichPorts(seen, id, n.ports), k, row, id);
  }

  lemma AckFollows(db: Db, seen: Db, db': Db, k: HostKey, row: HostRow, id: nat)
    requires seen == db.(hosts := db.hosts[k := row])
    requires EditHost(seen, id, SetAck(false)).hosts == seen.hosts[k := row.(acked := false)]
    requires db'.hosts == if NewAt(seen, db', id) then EditHost(seen, id, SetAck(false)).hosts else seen.hosts
    ensures db'.hosts == db.hosts[k := row.(acked := row.acked && !NewAt(db, db', id))]
  {
    hide EditHost;
    assert NewAt(seen, db', id) == NewAt(db, db', id);
  }

  lemma {:induction false} EnrichmentHosts(db: Db, subnet: nat, results: seq<NmapHost>, ids: map<string, nat>)
    requires RowIds(ids, subnet, db.hosts) && AllLive(ids, subnet, db.hosts) && UniqueHosts(db.hosts, db.nextHost)
    ensures HostsEnriched(db, EnrichAll(db, subnet, results, ids), subnet, results, ids)
  {
    if results != [] {
      hide AllLive, UniqueHosts, EnrichHost;
      var init, n := results[..|results| - 1], results[|results| - 1];
      EnrichmentHosts(db, subnet, init, ids);
      var mid := EnrichAll(db, subnet, init, ids);
      SightedIds(db, mid, subnet, init, ids);
      if n.ip in ids {
        EnrichHostEffect(mid, subnet, n, ids);
        var db' := EnrichHost(mid, subnet, n, ids);
        hide EnrichAll;
        OneMoreEnriched(db, mid, db', subnet, results, ids);
      }
    }
  }

  /** One report has been written over the row of its address. */
  ghost predicate Reread(mid: Db, db': Db, subnet: nat, n: NmapHost, ids: map<string, nat>)
    requires n.ip in ids && RowIds(ids, subnet, mid.hosts)
  {
    var k := HostKey(subnet, n.ip);
    && db' == mid.(hosts := db'.hosts, ports := db'.ports) && mid.ports.Keys <= db'.ports.Keys
    && db'.hosts == mid.hosts[k := Sighted(mid.hosts[k], Sighting(n.mac, n.vendor))
                                     .(acked := mid.hosts[k].acked && !NewAt(mid, db', ids[n.ip]))]
    && (forall p: PortKey | p.host != ids[n.ip] :: At(db'.ports, p) == At(mid.ports, p))
  }

  /** The row of `k` after the reports so far. */
  ghost predicate RowEnriched(db: Db, db': Db, results: seq<NmapHost>, ids: map<string, nat>, k: HostKey) {
    && k in db.hosts && k in db'.hosts
    && db'.hosts[k] == Sighted(db.hosts[k], SightingAt(results, ids, k.ip))
                         .(acked := db.hosts[k].acked && !NewAt(db, db', db.hosts[k].id))
  }

  lemma OwnRowEnriched(db: Db, mid: Db, db': Db, subnet: nat, results: seq<NmapHost>, ids: map<string, nat>)
    requires results != [] && results[|results| - 1].ip in ids && RowIds(ids, subnet, mid.hosts)
    requires Reread(mid, db', subnet, results[|results| - 1], ids) && db.ports.Keys <= mid.ports.Keys
    requires RowEnriched(db, mid, results[..|results| - 1], ids, HostKey(subnet, results[|results| - 1].ip))
    ensures RowEnriched(db, db', results, ids, HostKey(subnet, results[|results| - 1].ip))
  {
    NewAtJoins(db, mid, db', ids[results[|results| - 1].ip]);
    hide NewAt;
  }

  lemma OtherRowEnriched(db: Db, mid: Db, db': Db, subnet: nat, results: seq<NmapHost>, ids: map<string, nat>,
                         k: HostKey)
    requires results != [] && results[|results| - 1].ip in ids && RowIds(ids, subnet, mid.hosts)
    requires Reread(mid, db', subnet, results[|results| - 1], ids)
    requires k.subnet == subnet && k.ip != results[|results| - 1].ip
    requires RowEnriched(db, mid, results[..|results| - 1], ids, k) && db.hosts[k].id != ids[results[|results| - 1].ip]
    ensures RowEnriched(db, db', results, ids, k)
  {
    hide NewAt;
    SameKeys(mid, db', db.hosts[k].id);
    NewAtSame(db, mid, db', db.hosts[k].id);
  }

  lemma OneMoreEnriched(db: Db, mid: Db, db': Db, subnet: nat, results: seq<NmapHost>, ids: map<string, nat>)
    requires results != [] && HostsEnriched(db, mid, subnet, results[..|results| - 1], ids)
    requires UniqueHosts(db.hosts, db.nextHost) && RowIds(ids, subnet, db.hosts)
    requires results[|results| - 1].ip in ids && RowIds(ids, subnet, mid.hosts)
    requires Reread(mid, db', subnet, results[|results| - 1], ids)
    ensures HostsEnriched(db, db', subnet, results, ids)
  {
    hide NewAt, SightingAt;
    var n := results[|results| - 1];
    forall k | k in db.hosts && k.subnet == subnet && k.ip in ids ensures RowEnriched(db, db', results, ids, k) {
      assert k == HostKey(subnet, k.ip);
      if k.ip == n.ip {
        OwnRowEnriched(db, mid, db', subnet, results, ids);
      } else {
        OtherRowEnriched(db, mid, db', subnet, results, ids, k);
      }
    }
  }

  lemma SameKeys(db: Db, db': Db, host: nat)
    requires forall k: PortKey | k.host == host :: At(db'.ports, k) == At(db.ports, k)
    ensures forall k: PortKey | k.host == host :: k in db.ports <==> k in db'.ports
  {
    forall k: PortKey | k.host == host ensures k in db.ports <==> k in db'.ports {
      assert At(db'.ports, k) == At(db.ports, k);
    }
  }

  // ---- which ports are reported ----

  ghost predicate Reported(results: seq<NmapHost>, ids: map<string, nat>, k: PortKey) {
    exists h | h in results :: h.ip in ids && ids[h.ip] == k.host && PortReported(h.ports, k)
  }

  ghost predicate PortReported(ports: seq<NmapPort>, k: PortKey) {
    exists p | p in ports :: ReportKey(k.host, p) == k
  }

  lemma {:induction false} PortTouched(d: Detail, host: nat, ports: seq<NmapPort>, k: PortKey)
    ensures PortsDetail(d, host, ports, k).touched <==> d.touched || (k.host == host && PortReported(ports, k))
  {
    if ports != [] {
      var init, p := ports[..|ports| - 1], ports[|ports| - 1];
      PortTouched(d, host, init, k);
      assert forall q :: q in ports <==> q in init || q == p;
    }
  }

  /** A row is written to exactly if some report of a recorded host names it. */
  lemma {:induction false} TouchedIffReported(results: seq<NmapHost>, ids: map<string, nat>, k: PortKey)
    ensures DetailAt(results, ids, k).touched <==> Reported(results, ids, k)
  {
    if results != [] {
      var init, h := results[..|results| - 1], results[|results| - 1];
      TouchedIffReported(init, ids, k);
      assert forall x :: x in results <==> x in init || x == h;
      if h.ip in ids { PortTouched(DetailAt(init, ids, k), ids[h.ip], h.ports, k); }
      hide PortReported, PortsDetail;
    }
  }

  lemma {:induction false} PortDetailOnce(d: Detail, host: nat, ports: seq<NmapPort>, j: nat)
    requires j < |ports| && d == NoDetail && forall a | 0 <= a < |ports| && a != j :: ports[a].port != ports[j].port
    ensures var q := ports[j];
            PortsDetail(d, host, ports, ReportKey(host, q)) == Detail(true, q.service, q.banner, q.product, q.version)
  {
    var n := |ports| - 1;
    if j < n {
      PortDetailOnce(d, host, ports[..n], j);
    } else {
      PortUntouched(d, host, ports[..n], ReportKey(host, ports[j]));
    }
  }

  lemma {:induction false} PortUntouched(d: Detail, host: nat, ports: seq<NmapPort>, k: PortKey)
    requires k.host != host || forall q | q in ports :: q.port != k.port
    ensures PortsDetail(d, host, ports, k) == d
  {
    if ports != [] {
      assert ports[|ports| - 1] in ports;
      PortUntouched(d, host, ports[..|ports| - 1], k);
    }
  }

  lemma {:induction false} HostUntouched(results: seq<NmapHost>, ids: map<string, nat>, k: PortKey)
    requires forall h | h in results && h.ip in ids :: ids[h.ip] != k.host
    ensures DetailAt(results, ids, k) == NoDetail
  {
    if results != [] {
      var h := results[|results| - 1];
      assert h in results;
      HostUntouched(results[..|results| - 1], ids, k);
      if h.ip in ids { PortUntouched(NoDetail, ids[h.ip], h.ports, k); }
    }
  }

  lemma {:induction false} DetailOnce(results: seq<NmapHost>, ids: map<string, nat>, i: nat, j: nat)
    requires i < |results| && results[i].ip in ids && j < |results[i].ports|
    requires forall a | 0 <= a < |results| && a != i && results[a].ip in ids :: ids[results[a].ip] != ids[results[i].ip]
    requires forall a | 0 <= a < |results[i].ports| && a != j :: results[i].ports[a].port != results[i].ports[j].port
    ensures var q := results[i].ports[j];
            DetailAt(results, ids, ReportKey(ids[results[i].ip], q)) ==
              Detail(true, q.service, q.banner, q.product, q.version)
  {
    var n := |results| - 1;
    var k := ReportKey(ids[results[i].ip], results[i].ports[j]);
    if i < n {
      DetailOnce(results[..n], ids, i, j);
      if results[n].ip in ids {
        PortUntouched(DetailAt(results[..n], ids, k), ids[results[n].ip], results[n].ports, k);
      }
    } else {
      HostUntouched(results[..n], ids, k);
      PortDetailOnce(NoDetail, ids[results[n].ip], results[n].ports, j);
    }
  }

  /** Main: a port that is reported once ends open under the reported service, with the reported banner, product
      and version, each where it is not empty and otherwise as stored. */
  lemma ReportedOnce(db: Db, subnet: nat, results: seq<NmapHost>, ids: map<string, nat>, i: nat, j: nat)
    requires forall ip | ip in ids :: HasHost(db.hosts, ids[ip])
    requires i < |results| && results[i].ip in ids && j < |results[i].ports|
    requires forall a | 0 <= a < |results| && a != i && results[a].ip in ids :: ids[results[a].ip] != ids[results[i].ip]
    requires forall a | 0 <= a < |results[i].ports| && a != j :: results[i].ports[a].port != results[i].ports[j].port
    ensures var q, k := results[i].ports[j], PortKey(ids[results[i].ip], results[i].ports[j].port, "tcp");
            var db' := EnrichAll(db, subnet, results, ids);
            var old_ := if k in db.ports then db.ports[k] else PortRow(false, "", "", "", "");
            k in db'.ports && db'.ports[k] ==
              PortRow(true, q.service, if q.banner != "" then q.banner else old_.banner,
                      if q.product != "" then q.product else old_.product,
                      if q.version != "" then q.version else old_.version)
  {
    var k := ReportKey(ids[results[i].ip], results[i].ports[j]);
    DetailOnce(results, ids, i, j);
    EnrichmentDetails(db, subnet, results, ids, k);
    hide EnrichAll, DetailAt, HasHost;
  }

  /** Main: the MAC that counts is the one of the last report of the address that has one; so with the vendor. */
  lemma {:induction false} LastSighting(results: seq<NmapHost>, ids: map<string, nat>, ip: string, i: nat)
    requires i < |results| && results[i].ip == ip && ip in ids
    ensures results[i].mac != "" && (forall a | i < a < |results| && results[a].ip == ip :: results[a].mac == "") ==>
              SightingAt(results, ids, ip).mac == results[i].mac
    ensures results[i].vendor != "" &&
            (forall a | i < a < |results| && results[a].ip == ip :: results[a].vendor == "") ==>
              SightingAt(results, ids, ip).vendor == results[i].vendor
  {
    if i < |results| - 1 {
      LastSighting(results[..|results| - 1], ids, ip, i);
    }
  }
}
