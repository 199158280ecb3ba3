/** What one nmap-mode scan cycle of a subnet does to every row: its sources of live hosts, the effect of
    handling one address, and what that adds up to over a pass, a sweep and the enrichment. What the
    network answers is a parameter. */
module CycleRows {
  import opened Options
  import opened Tables
  import opened Listings
  import opened Runs
  import opened NmapOutput
  import opened PortScan
  import opened Enrichment
  import opened Ipv4
  import opened Version

  datatype ArpFind = ArpFind(mac: string, vendor: string)

  /** The subnet with its prefix and the cap on its expansion, and everything a cycle hears back. */
  datatype Hearing = Net(
    subnet: nat, cidr: Parsed, maxHosts: int, answers: string -> bool, arpFinds: map<string, ArpFind>,
    ptr: string -> Option<string>, probes: string -> seq<Probe>, guess: int -> string,
    arp: string -> string, names: string -> string, enrichment: Option<seq<NmapHost>>)

  /** 32-bit addresses and a 64-bit cap. */
  type Net = n: Hearing | Valid(n.cidr) && -UINT64 <= 2 * n.maxHosts < UINT64
    witness Net(0, Unparsable, 0, _ => false, map[], _ => None, _ => [], _ => "", _ => "", _ => "", None)

  // ---- the addresses of a cycle ----

  /** The texts the scanner gives the addresses it expands. */
  function Texts(addresses: seq<nat>): seq<string> {
    seq(|addresses|, i requires 0 <= i < |addresses| => Quad(addresses[i]))
  }

  function Addresses(n: Net): seq<string> {
    if n.cidr.V4? then Texts(Expansion(n.cidr.addr, 32 - n.cidr.ones, Unsigned(n.maxHosts))) else []
  }

  lemma TextsDistinct(addr: nat, hostBits: nat, limit: nat)
    requires addr < ADDRESSES && hostBits <= 32
    ensures Distinct(Texts(Expansion(addr, hostBits, limit)))
  {
    var e := Expansion(addr, hostBits, limit);
    ExpansionIsExact(addr, hostBits, limit);
    hide Expansion, Quad;
    forall i, j | 0 <= i < j < |e| ensures Texts(e)[i] != Texts(e)[j] {
      assert e[i] in e && e[j] in e && e[i] < e[j];
      if Quad(e[i]) == Quad(e[j]) { QuadInjective(e[i], e[j]); }
    }
  }

  lemma AddressesDistinct(n: Net)
    ensures Distinct(Addresses(n))
  {
    hide Expansion, Texts;
    if n.cidr.V4? { TextsDistinct(n.cidr.addr, 32 - n.cidr.ones, Unsigned(n.maxHosts)); }
  }

  // ---- the three sources ----

  ghost function Responders(n: Net): set<string> {
    set ip | ip in Addresses(n) && n.answers(ip)
  }

  ghost function Candidates(n: Net): set<string> {
    set ip | ip in Addresses(n) && ip !in Responders(n) && ip !in n.arpFinds
  }

  /** Candidates with a PTR record. */
  ghost function Hits(n: Net): set<string> {
    set ip | ip in Candidates(n) && n.ptr(ip).Some?
  }

  /** Those with an open port as well. */
  ghost function Confirmed(n: Net): set<string> {
    set ip | ip in Hits(n) && FoundOpen(n.probes(ip)) != {}
  }

  ghost function Alive(n: Net): set<string> {
    Responders(n) + n.arpFinds.Keys + Confirmed(n)
  }

  lemma HitsElsewhere(n: Net)
    ensures Hits(n) !! Responders(n) + n.arpFinds.Keys && Confirmed(n) <= Hits(n)
    ensures Alive(n) * Hits(n) == Confirmed(n)
  {
  }

  /** More hosts answered than there are addresses in the capped expansion: the list of the others is
      allocated with a negative capacity. */
  ghost predicate Crowded(n: Net) {
    |Responders(n) + n.arpFinds.Keys| > |Addresses(n)|
  }

  /** A set of listed addresses is no larger than the listing. */
  lemma {:induction false} SubsetSize(s: seq<string>, some: set<string>)
    requires forall x | x in some :: x in s
    ensures |some| <= |s|
  {
    if s == [] {
      assert some == {};
    } else {
      var n := |s| - 1;
      assert s == s[..n] + [s[n]];
      SubsetSize(s[..n], some - {s[n]});
    }
  }

  /** While netdiscover reports no address outside the capped expansion, there is room. */
  lemma FindsInRange(n: Net)
    requires forall ip | ip in n.arpFinds :: ip in Addresses(n)
    ensures !Crowded(n)
  {
    hide Addresses;
    SubsetSize(Addresses(n), Responders(n) + n.arpFinds.Keys);
  }

  lemma AddressCount(n: Net)
    ensures n.cidr.V4? ==> |Addresses(n)| <= Unsigned(n.maxHosts)
  {
    hide Expansion, Quad, Usable;
    if n.cidr.V4? { ExpansionIsExact(n.cidr.addr, 32 - n.cidr.ones, Unsigned(n.maxHosts)); }
  }

  /** Every usable address of a prefix, whatever the cap. */
  ghost function AllUsable(addr: nat, hostBits: nat): set<string> {
    set ip | ip in Texts(Expansion(addr, hostBits, Usable(hostBits)))
  }

  lemma AllUsableCount(addr: nat, hostBits: nat)
    requires addr < ADDRESSES && hostBits <= 32
    ensures |AllUsable(addr, hostBits)| == Usable(hostBits)
  {
    TextsDistinct(addr, hostBits, Usable(hostBits));
    ExpansionIsExact(addr, hostBits, Usable(hostBits));
    hide Expansion, Quad, Usable;
    ListsSize(Texts(Expansion(addr, hostBits, Usable(hostBits))), AllUsable(addr, hostBits));
  }

  /** A cycle is crowded when every usable address of its prefix answers ARP, which a proxy does, and there
      are more of them than the cap. */
  lemma ProxyArpCrowds(n: Net)
    requires n.cidr.V4? && Unsigned(n.maxHosts) < Usable(32 - n.cidr.ones)
    requires n.arpFinds.Keys == AllUsable(n.cidr.addr, 32 - n.cidr.ones)
    ensures Crowded(n)
  {
    hide AllUsable, Responders, Usable, Addresses, Unsigned;
    AddressCount(n);
    AllUsableCount(n.cidr.addr, 32 - n.cidr.ones);
    NoLarger(n.arpFinds.Keys, Responders(n));
  }

  lemma NoLarger(a: set<string>, b: set<string>)
    ensures |a| <= |b + a|
  {
    assert b + a == a + (b - a);
  }

  /** Such a proxy on a /16 under the default cap. */
  lemma ProxyArpOnSixteen(n: Net)
    requires n.cidr.V4? && n.cidr.ones == 16 && n.maxHosts == 4096
    requires n.arpFinds.Keys == AllUsable(n.cidr.addr, 16)
    ensures Crowded(n)
  {
    hide AllUsable, Crowded;
    Pow2Values();
    ProxyArpCrowds(n);
  }

  /** The ports found open on some of the addresses, which nmap is asked about. */
  ghost function OpenIn(n: Net, ips: set<string>): set<int> {
    set ip, p | ip in ips && p in FoundOpen(n.probes(ip)) :: p
  }

  /** What nmap answers, if it runs at all and does not fail. */
  ghost function Reports(n: Net): seq<NmapHost> {
    if n.enrichment.None? || OpenIn(n, Alive(n)) == {} then [] else n.enrichment.value
  }

  // ---- the host row of one address ----

  function NameOf(n: Net, ip: string): string {
    if n.ptr(ip).Some? then n.ptr(ip).value else ""
  }

  /** The kernel's ARP table comes first, netdiscover second. */
  function MacOf(n: Net, ip: string): string {
    if n.arp(ip) == "" && ip in n.arpFinds then n.arpFinds[ip].mac else n.arp(ip)
  }

  function VendorOf(n: Net, ip: string): string {
    if ip in n.arpFinds then n.arpFinds[ip].vendor else ""
  }

  /** A PTR hit: a new row is unknown, a stored one gets at most a hostname. */
  function NotedRow(row: Option<HostRow>, name: string): HostRow {
    if row.Some? then row.value.(hostname := Fill(row.value.hostname, name))
    else HostRow(0, "", name, "", Unknown, Auto, "", 0, false, false)
  }

  function SeenRow(row: Option<HostRow>, mac: string, name: string, vendor: string): HostRow {
    if row.Some? then
      var h := row.value;
      h.(status := Up, misses := 0, mac := Over(h.mac, mac), hostname := Over(h.hostname, name),
         vendor := Over(h.vendor, vendor))
    else HostRow(0, mac, name, vendor, Up, Auto, "", 0, false, false)
  }

  function HitRow(row: Option<HostRow>, n: Net, ip: string): HostRow {
    var r := NotedRow(row, NameOf(n, ip));
    if FoundOpen(n.probes(ip)) == {} then r else r.(status := Up, misses := 0)
  }

  function FoldRow(row: HostRow, mac: string): HostRow {
    if mac == "" then row else SeenRow(Some(row), mac, "", "")
  }

  /** The row of a scanned address: found by its PTR record, and if so folded into the live hosts or not
      yet; or else found live. Its id and acknowledgement are told apart. */
  function AsFound(row: Option<HostRow>, n: Net, ip: string, byName: bool, live: bool): HostRow {
    if !byName then SeenRow(row, MacOf(n, ip), n.names(ip), VendorOf(n, ip))
    else if live then FoldRow(HitRow(row, n, ip), n.arp(ip))
    else HitRow(row, n, ip)
  }

  // ---- the effect of one step ----

  /** One host row is written, in place or under the next id. */
  ghost predicate Wrote(db: Db, db': Db, k: HostKey, row: HostRow) {
    var id := if k in db.hosts then db.hosts[k].id else db.nextHost;
    db' == db.(hosts := db.hosts[k := row.(id := id)],
               nextHost := if k in db.hosts then db.nextHost else db.nextHost + 1)
  }

  /** One host row is written and its ports are scanned; the host loses its acknowledgement exactly if the
      scan leaves it a new port row. */
  ghost predicate Effect(db: Db, db': Db, k: HostKey, row: HostRow, probes: seq<Probe>, guess: int -> string) {
    var id := if k in db.hosts then db.hosts[k].id else db.nextHost;
    && Wrote(db, db'.(ports := db.ports), k, row.(acked := row.acked && !NewAt(db, db', id)))
    && forall p ::
        At(db'.ports, p) == if p.host == id then ScanRow(At(db.ports, p), p, probes, guess) else At(db.ports, p)
  }

  lemma NoteWrites(db: Db, k: HostKey, name: string)
    requires HasSubnet(db.subnets, k.subnet)
    ensures Wrote(db, UpsertUnconfirmedHost(db, k.subnet, k.ip, name), k, NotedRow(At(db.hosts, k), name))
  {
    hide HasSubnet;
  }

  lemma SightWrites(db: Db, k: HostKey, mac: string, name: string, vendor: string)
    requires HasSubnet(db.subnets, k.subnet)
    ensures Wrote(db, UpsertHost(db, k.subnet, k.ip, mac, name, vendor), k, SeenRow(At(db.hosts, k), mac, name, vendor))
  {
    hide HasSubnet;
  }

  lemma WroteUnique(db: Db, db': Db, k: HostKey, row: HostRow)
    requires Wrote(db, db', k, row) && UniqueHosts(db.hosts, db.nextHost)
    ensures UniqueHosts(db'.hosts, db'.nextHost) && k in db'.hosts && HasHost(db'.hosts, db'.hosts[k].id)
  {
    PutHost(db.hosts, db.nextHost, k, db'.hosts[k]);
    hide UniqueHosts;
    assert k in db'.hosts;
  }

  lemma EffectUnique(db: Db, db': Db, k: HostKey, row: HostRow, probes: seq<Probe>, guess: int -> string)
    requires Effect(db, db', k, row, probes, guess) && UniqueHosts(db.hosts, db.nextHost)
    ensures UniqueHosts(db'.hosts, db'.nextHost) && k in db'.hosts && HasHost(db'.hosts, db'.hosts[k].id)
  {
    hide NewAt, UniqueHosts, ScanRow;
    var id := if k in db.hosts then db.hosts[k].id else db.nextHost;
    WroteUnique(db, db'.(ports := db.ports), k, row.(acked := row.acked && !NewAt(db, db', id)));
  }

  /** Writing a row without a scan. */
  lemma WroteEffect(db: Db, db': Db, k: HostKey, row: HostRow, guess: int -> string)
    requires Wrote(db, db', k, row)
    ensures Effect(db, db', k, row, [], guess)
  {
    assert db' == db'.(ports := db.ports);
  }

  lemma ScanWrites(db: Db, mid: Db, k: HostKey, row: HostRow, probes: seq<Probe>, guess: int -> string)
    requires Wrote(db, mid, k, row) && UniqueHosts(mid.hosts, mid.nextHost)
    requires k in mid.hosts && HasHost(mid.hosts, mid.hosts[k].id)
    ensures var id := mid.hosts[k].id;
            var db' := ScanPorts(mid, id, probes, guess);
            Wrote(db, db'.(ports := db.ports), k, row.(acked := row.acked && !NewAt(db, db', id)))
  {
    var id := mid.hosts[k].id;
    ScanAcks(mid, id, probes, guess);
    EditHostAt(mid, k, SetAck(false));
    hide ScanPorts, UniqueHosts, HasHost, EditHost;
    assert NewAt(mid, ScanPorts(mid, id, probes, guess), id) == NewAt(db, ScanPorts(mid, id, probes, guess), id);
  }

  /** Then scanning its ports. */
  lemma ScanEffect(db: Db, mid: Db, k: HostKey, row: HostRow, probes: seq<Probe>, guess: int -> string)
    requires Wrote(db, mid, k, row) && UniqueHosts(db.hosts, db.nextHost)
    ensures k in mid.hosts && HasHost(mid.hosts, mid.hosts[k].id)
    ensures Effect(db, ScanPorts(mid, mid.hosts[k].id, probes, guess), k, row, probes, guess)
  {
    WroteUnique(db, mid, k, row);
    var id := mid.hosts[k].id;
    var db' := ScanPorts(mid, id, probes, guess);
    ScanWrites(db, mid, k, row, probes, guess);
    hide ScanPorts, ScanRow, UniqueHosts, HasHost, NewAt;
    forall p
      ensures At(db'.ports, p) == if p.host == id then ScanRow(At(db.ports, p), p, probes, guess) else At(db.ports, p)
    {
      ScanRows(mid, id, probes, guess, p);
    }
  }

  /** And confirming the host up. */
  lemma ConfirmEffect(db: Db, mid: Db, k: HostKey, row: HostRow, probes: seq<Probe>, guess: int -> string)
    requires Effect(db, mid, k, row, probes, guess) && UniqueHosts(db.hosts, db.nextHost)
    ensures k in mid.hosts
    ensures Effect(db, EditHost(mid, mid.hosts[k].id, Confirm), k, row.(status := Up, misses := 0), probes, guess)
  {
    EffectUnique(db, mid, k, row, probes, guess);
    EditHostAt(mid, k, Confirm);
    hide ScanRow, UniqueHosts, HasHost, EditHost;
    var db' := EditHost(mid, mid.hosts[k].id, Confirm);
    var id := mid.hosts[k].id;
    assert NewAt(db, mid, id) == NewAt(db, db', id);
    assert db'.hosts == db.hosts[k := db'.hosts[k]];
  }

  // ---- what a pass has done so far ----

  /** The host was acknowledged and has got no new port row since. */
  ghost predicate StillAcked(before: Db, db: Db, k: HostKey) {
    k in before.hosts && before.hosts[k].acked && !NewAt(before, db, before.hosts[k].id)
  }

  ghost function IdsAt(hosts: map<HostKey, HostRow>, subnet: nat, ips: set<string>): set<nat> {
    set ip | ip in ips && HostKey(subnet, ip) in hosts :: hosts[HostKey(subnet, ip)].id
  }

  /** `hinted` have been handled by the reverse-DNS pass, `seen` as live hosts. */
  ghost predicate HostPassed(before: Db, db: Db, n: Net, hinted: set<string>, seen: set<string>, k: HostKey) {
    if k.subnet == n.subnet && k.ip in hinted + seen then
      k in db.hosts && db.hosts[k] ==
        AsFound(At(before.hosts, k), n, k.ip, k.ip in hinted, k.ip in seen)
          .(id := db.hosts[k].id, acked := StillAcked(before, db, k))
    else At(db.hosts, k) == At(before.hosts, k)
  }

  ghost predicate PortPassed(before: Db, db: Db, n: Net, ips: set<string>, p: PortKey) {
    && (forall ip | ip in ips && HostKey(n.subnet, ip) in db.hosts && db.hosts[HostKey(n.subnet, ip)].id == p.host ::
          At(db.ports, p) == ScanRow(At(before.ports, p), p, n.probes(ip), n.guess))
    && (p.host !in IdsAt(db.hosts, n.subnet, ips) ==> At(db.ports, p) == At(before.ports, p))
  }

  ghost predicate KeepsIds(db: Db, db': Db) {
    forall k | k in db.hosts :: k in db'.hosts && db'.hosts[k].id == db.hosts[k].id
  }

  /** Nothing but host and port rows has changed, and host rows keep their ids. */
  ghost predicate Framed(before: Db, db: Db, subnet: nat) {
    && db == before.(hosts := db.hosts, ports := db.ports, nextHost := db.nextHost)
    && HasSubnet(db.subnets, subnet) && UniqueHosts(db.hosts, db.nextHost) && KeepsIds(before, db)
    && before.nextHost <= db.nextHost
  }

  ghost predicate Passed(before: Db, db: Db, n: Net, hinted: set<string>, seen: set<string>) {
    && Framed(before, db, n.subnet)
    && (forall k :: HostPassed(before, db, n, hinted, seen, k))
    && (forall p :: PortPassed(before, db, n, hinted + seen, p))
  }

  lemma PassStarts(db: Db, n: Net)
    requires HasSubnet(db.subnets, n.subnet) && UniqueHosts(db.hosts, db.nextHost)
    ensures Passed(db, db, n, {}, {})
  {
  }

  lemma EffectFramed(before: Db, db: Db, db': Db, subnet: nat, k: HostKey, row: HostRow, probes: seq<Probe>,
                     guess: int -> string)
    requires Framed(before, db, subnet) && Effect(db, db', k, row, probes, guess)
    ensures Framed(before, db', subnet) && KeepsIds(db, db')
  {
    EffectUnique(db, db', k, row, probes, guess);
    hide NewAt, ScanRow, UniqueHosts, HasSubnet, HasHost;
  }

  /** The host rows after one address: its own is written, and the others' acknowledgements stand. */
  lemma OtherHostPassed(before: Db, db: Db, db': Db, n: Net, hinted: set<string>, seen: set<string>, ip: string,
                        row: HostRow, probes: seq<Probe>, l: HostKey, hinted': set<string>, seen': set<string>)
    requires hinted <= hinted' <= hinted + {ip} && seen <= seen' <= seen + {ip}
    requires Framed(before, db, n.subnet) && HostPassed(before, db, n, hinted, seen, l)
    requires Effect(db, db', HostKey(n.subnet, ip), row, probes, n.guess) && l != HostKey(n.subnet, ip)
    ensures HostPassed(before, db', n, hinted', seen', l)
  {
    var k := HostKey(n.subnet, ip);
    var id := if k in db.hosts then db.hosts[k].id else db.nextHost;
    if l in before.hosts {
      assert before.hosts[l].id == db.hosts[l].id != id by { hide NewAt, ScanRow, HasSubnet, Effect; }
      NewElsewhere(before, db, db', k, row, probes, n.guess, before.hosts[l].id);
    }
    hide NewAt, ScanRow, AsFound, UniqueHosts, KeepsIds, HasSubnet;
    assert At(db'.hosts, l) == At(db.hosts, l);
    assert StillAcked(before, db', l) == StillAcked(before, db, l);
    assert l.subnet == n.subnet ==> l.ip != ip;
  }

  lemma NewElsewhere(before: Db, db: Db, db': Db, k: HostKey, row: HostRow, probes: seq<Probe>, guess: int -> string,
                     host: nat)
    requires Effect(db, db', k, row, probes, guess)
    requires host != if k in db.hosts then db.hosts[k].id else db.nextHost
    ensures NewAt(before, db', host) <==> NewAt(before, db, host)
  {
    forall p: PortKey | p.host == host ensures p in db.ports <==> p in db'.ports {
      assert At(db'.ports, p) == At(db.ports, p);
    }
    NewAtSame(before, db, db', host);
  }

  lemma OwnPortPassed(before: Db, db: Db, db': Db, n: Net, ips: set<string>, ip: string, row: HostRow, p: PortKey)
    requires Framed(before, db, n.subnet) && ip !in ips && PortPassed(before, db, n, ips, p)
    requires Effect(db, db', HostKey(n.subnet, ip), row, n.probes(ip), n.guess)
    requires forall x | x in ips :: HostKey(n.subnet, x) in db.hosts
    ensures PortPassed(before, db', n, ips + {ip}, p)
  {
    hide NewAt, ScanRow, HasSubnet, AsFound;
    var k := HostKey(n.subnet, ip);
    EffectFramed(before, db, db', n.subnet, k, row, n.probes(ip), n.guess);
    var id := db'.hosts[k].id;
    assert db'.hosts[k].id == if k in db.hosts then db.hosts[k].id else db.nextHost;
    assert id !in IdsAt(db.hosts, n.subnet, ips);
    forall x | x in ips + {ip} && HostKey(n.subnet, x) in db'.hosts && db'.hosts[HostKey(n.subnet, x)].id == p.host
      ensures At(db'.ports, p) == ScanRow(At(before.ports, p), p, n.probes(x), n.guess)
    {
      if x != ip {
        assert HostKey(n.subnet, x) != k && db'.hosts[HostKey(n.subnet, x)] == db.hosts[HostKey(n.subnet, x)];
      }
    }
    if p.host !in IdsAt(db'.hosts, n.subnet, ips + {ip}) {
      assert ip in ips + {ip} && k in db'.hosts;
      SameIds(db, db', n.subnet, ips);
    }
  }

  lemma SameIds(db: Db, db': Db, subnet: nat, ips: set<string>)
    requires KeepsIds(db, db') && forall ip | ip in ips :: HostKey(subnet, ip) in db.hosts
    ensures IdsAt(db'.hosts, subnet, ips) == IdsAt(db.hosts, subnet, ips)
    ensures forall more :: ips <= more ==> IdsAt(db.hosts, subnet, ips) <= IdsAt(db'.hosts, subnet, more)
  {
  }

  /** The host had no port rows but those it had before. */
  lemma NothingNewYet(before: Db, db: Db, n: Net, hinted: set<string>, seen: set<string>, id: nat)
    requires Passed(before, db, n, hinted, seen) && id !in IdsAt(db.hosts, n.subnet, hinted + seen)
    ensures forall p: PortKey | p.host == id :: p in db.ports <==> p in before.ports
  {
    hide HostPassed, Framed, IdsAt, ScanRow;
    forall p: PortKey | p.host == id ensures p in db.ports <==> p in before.ports {
      assert PortPassed(before, db, n, hinted + seen, p);
      assert At(db.ports, p) == At(before.ports, p);
    }
  }

  lemma UnscannedId(before: Db, db: Db, n: Net, hinted: set<string>, seen: set<string>, ip: string)
    requires Passed(before, db, n, hinted, seen) && ip !in hinted + seen
    ensures forall x | x in hinted + seen :: HostKey(n.subnet, x) in db.hosts
    ensures var k := HostKey(n.subnet, ip);
            (if k in db.hosts then db.hosts[k].id else db.nextHost) !in IdsAt(db.hosts, n.subnet, hinted + seen)
    ensures At(db.hosts, HostKey(n.subnet, ip)) == At(before.hosts, HostKey(n.subnet, ip))
  {
    hide PortPassed, AsFound, StillAcked, HasSubnet;
    forall x | x in hinted + seen ensures HostKey(n.subnet, x) in db.hosts {
      assert HostPassed(before, db, n, hinted, seen, HostKey(n.subnet, x));
    }
    assert HostPassed(before, db, n, hinted, seen, HostKey(n.subnet, ip));
  }

  lemma OwnHostPassed(before: Db, db: Db, db': Db, n: Net, hinted: set<string>, seen: set<string>, ip: string,
                      hinted': set<string>, seen': set<string>)
    requires Passed(before, db, n, hinted, seen) && ip !in hinted + seen && ip in hinted' + seen'
    requires Effect(db, db', HostKey(n.subnet, ip),
                    AsFound(At(db.hosts, HostKey(n.subnet, ip)), n, ip, ip in hinted', ip in seen'),
                    n.probes(ip), n.guess)
    ensures HostPassed(before, db', n, hinted', seen', HostKey(n.subnet, ip))
  {
    var k := HostKey(n.subnet, ip);
    var id := if k in db.hosts then db.hosts[k].id else db.nextHost;
    UnscannedId(before, db, n, hinted, seen, ip);
    NothingNewYet(before, db, n, hinted, seen, id);
    SameStart(before, db, db', id);
    AckAsStored(At(db.hosts, k), n, ip, ip in hinted', ip in seen');
    hide AsFound, NewAt, ScanRow, PortPassed, IdsAt, HasSubnet, UniqueHosts;
    assert k in before.hosts ==> k in db.hosts && before.hosts[k].id == id;
  }

  lemma SameStart(before: Db, db: Db, db': Db, id: nat)
    requires forall p: PortKey | p.host == id :: p in db.ports <==> p in before.ports
    ensures NewAt(before, db', id) <==> NewAt(db, db', id)
  {
  }

  lemma AckAsStored(row: Option<HostRow>, n: Net, ip: string, byName: bool, live: bool)
    ensures AsFound(row, n, ip, byName, live).acked <==> row.Some? && row.value.acked
  {
  }

  /** One more address is handled: as a PTR hit, or as a live host. */
  lemma FreshPasses(before: Db, db: Db, db': Db, n: Net, hinted: set<string>, seen: set<string>, ip: string,
                    hinted': set<string>, seen': set<string>)
    requires Passed(before, db, n, hinted, seen) && ip !in hinted + seen && ip in hinted' + seen'
    requires hinted <= hinted' <= hinted + {ip} && seen <= seen' <= seen + {ip}
    requires Effect(db, db', HostKey(n.subnet, ip),
                    AsFound(At(db.hosts, HostKey(n.subnet, ip)), n, ip, ip in hinted', ip in seen'),
                    n.probes(ip), n.guess)
    ensures Passed(before, db', n, hinted', seen') && KeepsIds(db, db') && HostKey(n.subnet, ip) in db'.hosts
  {
    var k := HostKey(n.subnet, ip);
    var row := AsFound(At(db.hosts, k), n, ip, ip in hinted', ip in seen');
    UnscannedId(before, db, n, hinted, seen, ip);
    EffectFramed(before, db, db', n.subnet, k, row, n.probes(ip), n.guess);
    EffectUnique(db, db', k, row, n.probes(ip), n.guess);
    assert hinted' + seen' == hinted + seen + {ip};
    hide AsFound, Effect, Framed, IdsAt, ScanRow, HasHost, UniqueHosts, KeepsIds;
    forall l ensures HostPassed(before, db', n, hinted', seen', l) {
      hide HostPassed, PortPassed;
      if l == k {
        OwnHostPassed(before, db, db', n, hinted, seen, ip, hinted', seen');
      } else {
        assert HostPassed(before, db, n, hinted, seen, l);
        OtherHostPassed(before, db, db', n, hinted, seen, ip, row, n.probes(ip), l, hinted', seen');
      }
    }
    forall p ensures PortPassed(before, db', n, hinted' + seen', p) {
      hide HostPassed, PortPassed;
      assert PortPassed(before, db, n, hinted + seen, p);
      OwnPortPassed(before, db, db', n, hinted + seen, ip, row, p);
    }
  }

  lemma NoScan(db: Db, db': Db, k: HostKey, row: HostRow, guess: int -> string)
    requires Effect(db, db', k, row, [], guess)
    ensures db'.ports == db.ports && forall id :: !NewAt(db, db', id)
  {
    hide Wrote;
    forall p ensures At(db'.ports, p) == At(db.ports, p) {}
    forall p ensures (p in db'.ports <==> p in db.ports) && (p in db.ports ==> db'.ports[p] == db.ports[p]) {
      assert At(db'.ports, p) == At(db.ports, p);
    }
  }

  /** A confirmed hit is folded into the live hosts. */
  lemma FoldPasses(before: Db, db: Db, db': Db, n: Net, hinted: set<string>, seen: set<string>, ip: string)
    requires Passed(before, db, n, hinted, seen) && ip in hinted && ip !in seen
    requires HostKey(n.subnet, ip) in db.hosts
    requires Effect(db, db', HostKey(n.subnet, ip), FoldRow(db.hosts[HostKey(n.subnet, ip)], n.arp(ip)), [], n.guess)
    ensures Passed(before, db', n, hinted, seen + {ip}) && KeepsIds(db, db') && db'.ports == db.ports
  {
    var k := HostKey(n.subnet, ip);
    var row := FoldRow(db.hosts[k], n.arp(ip));
    NoScan(db, db', k, row, n.guess);
    EffectFramed(before, db, db', n.subnet, k, row, [], n.guess);
    assert hinted + (seen + {ip}) == hinted + seen;
    hide Framed, IdsAt, ScanRow, HasHost, UniqueHosts, NewAt, AsFound;
    forall l ensures HostPassed(before, db', n, hinted, seen + {ip}, l) {
      assert HostPassed(before, db, n, hinted, seen, l);
      hide HostPassed, PortPassed;
      if l == k {
        FoldedHost(before, db, db', n, hinted, seen, ip);
      } else {
        OtherHostPassed(before, db, db', n, hinted, seen, ip, row, [], l, hinted, seen + {ip});
      }
    }
    forall p ensures PortPassed(before, db', n, hinted + seen, p) {
      hide HostPassed, PortPassed, Effect, FoldRow;
      assert PortPassed(before, db, n, hinted + seen, p);
      SamePortsPassed(before, db, db', n, hinted, seen, p);
    }
  }

  lemma FoldedHost(before: Db, db: Db, db': Db, n: Net, hinted: set<string>, seen: set<string>, ip: string)
    requires HostPassed(before, db, n, hinted, seen, HostKey(n.subnet, ip)) && ip in hinted && ip !in seen
    requires HostKey(n.subnet, ip) in db.hosts && db'.ports == db.ports
    requires Effect(db, db', HostKey(n.subnet, ip), FoldRow(db.hosts[HostKey(n.subnet, ip)], n.arp(ip)), [], n.guess)
    ensures HostPassed(before, db', n, hinted, seen + {ip}, HostKey(n.subnet, ip))
  {
    hide HitRow, ScanRow;
  }

  lemma ScannedStored(before: Db, db: Db, n: Net, hinted: set<string>, seen: set<string>)
    requires Passed(before, db, n, hinted, seen)
    ensures forall x | x in hinted + seen :: HostKey(n.subnet, x) in db.hosts
  {
    hide PortPassed, AsFound, StillAcked, Framed;
    forall x | x in hinted + seen ensures HostKey(n.subnet, x) in db.hosts {
      assert HostPassed(before, db, n, hinted, seen, HostKey(n.subnet, x));
    }
  }

  lemma SamePortsPassed(before: Db, db: Db, db': Db, n: Net, hinted: set<string>, seen: set<string>, p: PortKey)
    requires Passed(before, db, n, hinted, seen) && PortPassed(before, db, n, hinted + seen, p)
    requires KeepsIds(db, db') && db'.ports == db.ports
    ensures PortPassed(before, db', n, hinted + seen, p)
  {
    ScannedStored(before, db, n, hinted, seen);
    hide ScanRow, Framed, HostPassed;
    SameIds(db, db', n.subnet, hinted + seen);
    hide IdsAt;
  }

  // ---- the trace of port scans ----

  /** The store's trace of port scans: what has been appended to `base` lists the row ids of `ips`, each once. */
  ghost predicate ScannedOnce(db: Db, scans: seq<nat>, base: seq<nat>, n: Net, ips: set<string>) {
    |base| <= |scans| && scans[..|base|] == base && Lists(scans[|base|..], IdsAt(db.hosts, n.subnet, ips))
  }

  lemma TraceStarts(db: Db, scans: seq<nat>, n: Net)
    ensures ScannedOnce(db, scans, scans, n, {})
  {
  }

  lemma TraceOneMore(before: Db, db: Db, db': Db, scans: seq<nat>, base: seq<nat>, n: Net, hinted: set<string>,
                     seen: set<string>, ip: string)
    requires Passed(before, db, n, hinted, seen) && ip !in hinted + seen && KeepsIds(db, db')
    requires ScannedOnce(db, scans, base, n, hinted + seen) && HostKey(n.subnet, ip) in db'.hosts
    requires var k := HostKey(n.subnet, ip);
             db'.hosts[k].id == if k in db.hosts then db.hosts[k].id else db.nextHost
    ensures ScannedOnce(db', scans + [db'.hosts[HostKey(n.subnet, ip)].id], base, n, hinted + seen + {ip})
  {
    UnscannedId(before, db, n, hinted, seen, ip);
    hide Passed;
    var ips, id := hinted + seen, db'.hosts[HostKey(n.subnet, ip)].id;
    SameIds(db, db', n.subnet, ips);
    var ids := IdsAt(db.hosts, n.subnet, ips);
    ListsAppend(scans[|base|..], ids, id);
    assert IdsAt(db'.hosts, n.subnet, ips + {ip}) == ids + {id};
    assert (scans + [id])[|base|..] == scans[|base|..] + [id];
    hide Lists;
  }

  lemma TraceKept(db: Db, db': Db, scans: seq<nat>, base: seq<nat>, n: Net, ips: set<string>)
    requires ScannedOnce(db, scans, base, n, ips) && KeepsIds(db, db')
    requires forall x | x in ips :: HostKey(n.subnet, x) in db.hosts
    ensures ScannedOnce(db', scans, base, n, ips)
  {
    SameIds(db, db', n.subnet, ips);
    hide Lists, IdsAt;
  }

  // ---- the finished cycle ----

  /** What `reports` about the live hosts leave of a row they found. */
  function Detailed(row: Option<PortRow>, d: Detail): Option<PortRow> {
    if d.touched then Some(Observed(OrBlank(row), d.service, d.banner, d.product, d.version)) else row
  }

  /** The host row a cycle leaves: a live host's as found and then reported, a PTR hit's that stayed
      unconfirmed one miss further, and any other host's of the subnet only one miss further. */
  ghost predicate HostCycled(before: Db, db: Db, n: Net, threshold: nat, reports: seq<NmapHost>,
                             ids: map<string, nat>, k: HostKey)
  {
    if k.subnet != n.subnet then At(db.hosts, k) == At(before.hosts, k)
    else if k.ip in Alive(n) then
      k in db.hosts && db.hosts[k] ==
        Sighted(AsFound(At(before.hosts, k), n, k.ip, k.ip in Hits(n), true), SightingAt(reports, ids, k.ip))
          .(id := db.hosts[k].id, acked := StillAcked(before, db, k))
    else if k.ip in Hits(n) then
      k in db.hosts && db.hosts[k] ==
        Missed(AsFound(At(before.hosts, k), n, k.ip, true, false), threshold)
          .(id := db.hosts[k].id, acked := StillAcked(before, db, k))
    else At(db.hosts, k) == if k in before.hosts then Some(Missed(before.hosts[k], threshold)) else None
  }

  /** The port row a cycle leaves: as the scan of its host found it and then as reported. */
  ghost predicate PortCycled(before: Db, db: Db, n: Net, reports: seq<NmapHost>, ids: map<string, nat>, p: PortKey) {
    && (forall ip | ip in Alive(n) + Hits(n) && HostKey(n.subnet, ip) in db.hosts
                    && db.hosts[HostKey(n.subnet, ip)].id == p.host ::
          At(db.ports, p) ==
            Detailed(ScanRow(At(before.ports, p), p, n.probes(ip), n.guess), DetailAt(reports, ids, p)))
    && (p.host !in IdsAt(db.hosts, n.subnet, Alive(n) + Hits(n)) ==> At(db.ports, p) == At(before.ports, p))
  }

  /** `ids` are the row ids of the live hosts; nothing is left open about any row of any table. */
  ghost predicate Cycled(before: Db, db: Db, n: Net, threshold: nat, reports: seq<NmapHost>, ids: map<string, nat>) {
    && Framed(before, db, n.subnet) && ids.Keys == Alive(n) && RowIds(ids, n.subnet, db.hosts)
    && (forall k :: HostCycled(before, db, n, threshold, reports, ids, k))
    && (forall p :: PortCycled(before, db, n, reports, ids, p))
  }

  lemma SweepHost(before: Db, db: Db, n: Net, threshold: nat, ids: map<string, nat>, k: HostKey)
    requires HostPassed(before, db, n, Hits(n), Alive(n), k)
    ensures HostCycled(before, SweepMissing(db, n.subnet, Alive(n), threshold), n, threshold, [], ids, k)
  {
    var db' := SweepMissing(db, n.subnet, Alive(n), threshold);
    assert SightingAt([], ids, k.ip) == Sighting("", "");
    assert forall id :: NewAt(before, db, id) == NewAt(before, db', id);
    hide Alive, Hits, AsFound, NewAt;
  }

  lemma SweepPort(before: Db, db: Db, n: Net, threshold: nat, ids: map<string, nat>, p: PortKey)
    requires PortPassed(before, db, n, Hits(n) + Alive(n), p)
    ensures PortCycled(before, SweepMissing(db, n.subnet, Alive(n), threshold), n, [], ids, p)
  {
    var db' := SweepMissing(db, n.subnet, Alive(n), threshold);
    assert DetailAt([], ids, p) == NoDetail;
    assert Hits(n) + Alive(n) == Alive(n) + Hits(n);
    assert db'.hosts.Keys == db.hosts.Keys && forall k | k in db.hosts :: db'.hosts[k].id == db.hosts[k].id;
    assert IdsAt(db'.hosts, n.subnet, Alive(n) + Hits(n)) == IdsAt(db.hosts, n.subnet, Alive(n) + Hits(n));
    hide Alive, Hits, ScanRow, IdsAt, SweepMissing;
  }

  lemma SweepFramed(before: Db, db: Db, n: Net, seen: set<string>, threshold: nat)
    requires Framed(before, db, n.subnet)
    ensures Framed(before, SweepMissing(db, n.subnet, seen, threshold), n.subnet)
    ensures KeepsIds(db, SweepMissing(db, n.subnet, seen, threshold))
  {
    hide HasSubnet;
    assert forall k | k in db.hosts :: SweepMissing(db, n.subnet, seen, threshold).hosts[k].id == db.hosts[k].id;
  }

  /** The sweep turns a finished pass into a cycle without reports. */
  lemma SweepCycles(before: Db, db: Db, n: Net, threshold: nat, ids: map<string, nat>)
    requires Passed(before, db, n, Hits(n), Alive(n)) && ids.Keys == Alive(n) && RowIds(ids, n.subnet, db.hosts)
    ensures Cycled(before, SweepMissing(db, n.subnet, Alive(n), threshold), n, threshold, [], ids)
  {
    var db' := SweepMissing(db, n.subnet, Alive(n), threshold);
    SweepFramed(before, db, n, Alive(n), threshold);
    hide HostPassed, PortPassed, HostCycled, PortCycled, SweepMissing, Alive, Hits, Framed;
    forall k ensures HostCycled(before, db', n, threshold, [], ids, k) {
      assert HostPassed(before, db, n, Hits(n), Alive(n), k);
      SweepHost(before, db, n, threshold, ids, k);
    }
    forall p ensures PortCycled(before, db', n, [], ids, p) {
      assert PortPassed(before, db, n, Hits(n) + Alive(n), p);
      SweepPort(before, db, n, threshold, ids, p);
    }
  }

  /** The pass leaves whoever is going to miss this cycle as it was. */
  lemma SameDown(before: Db, db: Db, n: Net, threshold: nat)
    requires Passed(before, db, n, Hits(n), Alive(n))
    ensures WentDown(db, n.subnet, Alive(n), threshold) == WentDown(before, n.subnet, Alive(n), threshold)
    ensures forall k | k in WentDown(before, n.subnet, Alive(n), threshold) ::
              k in before.hosts && k in db.hosts && db.hosts[k].id == before.hosts[k].id
  {
    hide PortPassed, HostPassed, HasSubnet, UniqueHosts;
    forall k: HostKey | k.subnet == n.subnet && k.ip !in Alive(n)
      ensures k in db.hosts && db.hosts[k].status == Up <==> k in before.hosts && before.hosts[k].status == Up
      ensures k in before.hosts && k in db.hosts ==> db.hosts[k].misses == before.hosts[k].misses
    {
      assert HostPassed(before, db, n, Hits(n), Alive(n), k);
      UnseenHost(before, db, n, k);
    }
    hide Alive, Hits;
  }

  lemma UnseenHost(before: Db, db: Db, n: Net, k: HostKey)
    requires HostPassed(before, db, n, Hits(n), Alive(n), k) && k.ip !in Alive(n)
    ensures k in db.hosts && db.hosts[k].status == Up <==> k in before.hosts && before.hosts[k].status == Up
    ensures k in before.hosts && k in db.hosts ==> db.hosts[k].misses == before.hosts[k].misses
  {
    assert k.ip in Hits(n) ==> FoundOpen(n.probes(k.ip)) == {};
    hide Alive, Hits, StillAcked, FoundOpen;
  }

  // ---- and its enrichment ----

  lemma ReportedHost(before: Db, db: Db, db': Db, n: Net, threshold: nat, reports: seq<NmapHost>,
                     ids: map<string, nat>, k: HostKey)
    requires HostCycled(before, db, n, threshold, [], ids, k) && ids.Keys == Alive(n)
    requires HostsEnriched(db, db', n.subnet, reports, ids) && KeepsIds(before, db)
    requires before.ports.Keys <= db.ports.Keys
    requires k in db.hosts && !(k.subnet == n.subnet && k.ip in ids) ==> !NewAt(db, db', db.hosts[k].id)
    ensures HostCycled(before, db', n, threshold, reports, ids, k)
  {
    assert SightingAt([], ids, k.ip) == Sighting("", "");
    if k in before.hosts {
      NewAtJoins(before, db, db', before.hosts[k].id);
    }
    hide Alive, Hits, AsFound, NewAt, SightingAt;
  }

  lemma NoneLost(before: Db, db: Db, n: Net, reports: seq<NmapHost>, ids: map<string, nat>, p: PortKey)
    requires PortCycled(before, db, n, reports, ids, p) && p in before.ports
    ensures p in db.ports
  {
    hide Alive, Hits;
    if p.host in IdsAt(db.hosts, n.subnet, Alive(n) + Hits(n)) {
      var ip :| ip in Alive(n) + Hits(n) && HostKey(n.subnet, ip) in db.hosts &&
                db.hosts[HostKey(n.subnet, ip)].id == p.host;
      ScanRowShape(At(before.ports, p), p, n.probes(ip), n.guess);
      hide ScanRow;
      assert At(db.ports, p).Some?;
    } else {
      assert At(db.ports, p) == At(before.ports, p);
    }
  }

  lemma ReportedPort(before: Db, db: Db, db': Db, n: Net, reports: seq<NmapHost>, ids: map<string, nat>, p: PortKey)
    requires PortCycled(before, db, n, [], ids, p) && ids.Keys == Alive(n) && RowIds(ids, n.subnet, db.hosts)
    requires db'.hosts.Keys == db.hosts.Keys && KeepsIds(db, db')
    requires DetailedAt(db, db', p, DetailAt(reports, ids, p))
    ensures PortCycled(before, db', n, reports, ids, p)
  {
    assert DetailAt([], ids, p) == NoDetail;
    var d := DetailAt(reports, ids, p);
    assert At(db'.ports, p) == Detailed(At(db.ports, p), d);
    TouchedIffReported(reports, ids, p);
    hide ScanRow, DetailAt;
    assert IdsAt(db'.hosts, n.subnet, Alive(n) + Hits(n)) == IdsAt(db.hosts, n.subnet, Alive(n) + Hits(n));
    if d.touched {
      var h :| h in reports && h.ip in ids && ids[h.ip] == p.host && PortReported(h.ports, p);
      assert h.ip in Alive(n) + Hits(n) && HostKey(n.subnet, h.ip) in db.hosts;
      assert p.host in IdsAt(db.hosts, n.subnet, Alive(n) + Hits(n));
    }
    hide Alive, Hits, Detailed, IdsAt;
  }

  lemma LiveIsUp(before: Db, db: Db, n: Net, threshold: nat, reports: seq<NmapHost>, ids: map<string, nat>, k: HostKey)
    requires HostCycled(before, db, n, threshold, reports, ids, k) && k.subnet == n.subnet && k.ip in Alive(n)
    ensures k in db.hosts && db.hosts[k].status == Up && db.hosts[k].misses == 0
  {
    HitsElsewhere(n);
    assert k.ip in Hits(n) ==> k.ip in Confirmed(n) && FoundOpen(n.probes(k.ip)) != {};
    hide Alive, Hits, StillAcked, SightingAt, FoundOpen;
  }

  ghost predicate AllDetailed(db: Db, db': Db, reports: seq<NmapHost>, ids: map<string, nat>) {
    forall p :: DetailedAt(db, db', p, DetailAt(reports, ids, p))
  }

  lemma OnlyLiveReported(db: Db, db': Db, subnet: nat, reports: seq<NmapHost>, ids: map<string, nat>, k: HostKey)
    requires UniqueHosts(db.hosts, db.nextHost) && RowIds(ids, subnet, db.hosts) && k in db.hosts
    requires !(k.subnet == subnet && k.ip in ids)
    requires AllDetailed(db, db', reports, ids)
    ensures !NewAt(db, db', db.hosts[k].id)
  {
    hide DetailAt;
    forall p: PortKey | p.host == db.hosts[k].id ensures p in db'.ports ==> p in db.ports {
      assert DetailedAt(db, db', p, DetailAt(reports, ids, p));
      TouchedIffReported(reports, ids, p);
    }
  }

  lemma PortsReported(before: Db, db: Db, db': Db, n: Net, threshold: nat, reports: seq<NmapHost>,
                      ids: map<string, nat>)
    requires Cycled(before, db, n, threshold, [], ids) && AllDetailed(db, db', reports, ids)
    requires db'.hosts.Keys == db.hosts.Keys && KeepsIds(db, db')
    ensures forall p :: PortCycled(before, db', n, reports, ids, p)
    ensures before.ports.Keys <= db.ports.Keys
  {
    hide HostCycled, PortCycled, Alive, Framed, DetailedAt, DetailAt, RowIds, KeepsIds;
    forall p ensures PortCycled(before, db', n, reports, ids, p) {
      assert PortCycled(before, db, n, [], ids, p);
      assert DetailedAt(db, db', p, DetailAt(reports, ids, p));
      ReportedPort(before, db, db', n, reports, ids, p);
    }
    forall p | p in before.ports ensures p in db.ports {
      assert PortCycled(before, db, n, [], ids, p);
      NoneLost(before, db, n, [], ids, p);
    }
  }

  lemma HostsReported(before: Db, db: Db, db': Db, n: Net, threshold: nat, reports: seq<NmapHost>,
                      ids: map<string, nat>)
    requires Cycled(before, db, n, threshold, [], ids) && AllDetailed(db, db', reports, ids)
    requires HostsEnriched(db, db', n.subnet, reports, ids) && before.ports.Keys <= db.ports.Keys
    ensures forall k :: HostCycled(before, db', n, threshold, reports, ids, k)
  {
    hide HostCycled, PortCycled, Alive, RowIds, AllDetailed, HostsEnriched, UniqueHosts, HasSubnet, NewAt;
    forall k ensures HostCycled(before, db', n, threshold, reports, ids, k) {
      assert HostCycled(before, db, n, threshold, [], ids, k);
      if k in db.hosts && !(k.subnet == n.subnet && k.ip in ids) {
        OnlyLiveReported(db, db', n.subnet, reports, ids, k);
      }
      ReportedHost(before, db, db', n, threshold, reports, ids, k);
    }
  }

  lemma ReportedFramed(before: Db, db: Db, db': Db, subnet: nat, reports: seq<NmapHost>, ids: map<string, nat>)
    requires Framed(before, db, subnet) && HostsEnriched(db, db', subnet, reports, ids)
    requires RowIds(ids, subnet, db.hosts) && AllLive(ids, subnet, db.hosts)
    ensures Framed(before, db', subnet) && KeepsIds(db, db') && RowIds(ids, subnet, db'.hosts)
    ensures db'.hosts.Keys == db.hosts.Keys
  {
    SightedIds(db, db', subnet, reports, ids);
    hide NewAt, SightingAt, HasSubnet, AllLive;
  }

  /** nmap's reports turn a cycle without them into one with them. */
  lemma EnrichmentCycles(before: Db, db: Db, n: Net, threshold: nat, reports: seq<NmapHost>, ids: map<string, nat>)
    requires Cycled(before, db, n, threshold, [], ids)
    ensures var db' := EnrichAll(db, n.subnet, reports, ids);
            Cycled(before, db', n, threshold, reports, ids) && KeepsIds(db, db')
  {
    var db' := EnrichAll(db, n.subnet, reports, ids);
    AllLiveNow(before, db, n, threshold, ids);
    hide EnrichAll, Alive, HostsEnriched, AllLive, HostCycled, PortCycled, Framed, RowIds, KeepsIds;
    FramedUnique(before, db, n.subnet);
    EnrichmentHosts(db, n.subnet, reports, ids);
    ReportedFramed(before, db, db', n.subnet, reports, ids);
    DetailsHere(db, n.subnet, reports, ids);
    PortsReported(before, db, db', n, threshold, reports, ids);
    HostsReported(before, db, db', n, threshold, reports, ids);
  }

  lemma FramedUnique(before: Db, db: Db, subnet: nat)
    requires Framed(before, db, subnet)
    ensures UniqueHosts(db.hosts, db.nextHost) && HasSubnet(db.subnets, subnet)
  {
  }

  lemma AllLiveNow(before: Db, db: Db, n: Net, threshold: nat, ids: map<string, nat>)
    requires Cycled(before, db, n, threshold, [], ids)
    ensures AllLive(ids, n.subnet, db.hosts)
  {
    hide HostCycled, PortCycled, Framed, Alive;
    forall ip | ip in ids
      ensures HostKey(n.subnet, ip) in db.hosts
      ensures db.hosts[HostKey(n.subnet, ip)].status == Up && db.hosts[HostKey(n.subnet, ip)].misses == 0
    {
      assert HostCycled(before, db, n, threshold, [], ids, HostKey(n.subnet, ip));
      LiveIsUp(before, db, n, threshold, [], ids, HostKey(n.subnet, ip));
    }
  }

  lemma DetailsHere(db: Db, subnet: nat, reports: seq<NmapHost>, ids: map<string, nat>)
    requires RowIds(ids, subnet, db.hosts)
    ensures AllDetailed(db, EnrichAll(db, subnet, reports, ids), reports, ids)
  {
    hide EnrichAll, DetailedAt, DetailAt;
    forall ip | ip in ids ensures HasHost(db.hosts, ids[ip]) {
      assert HostKey(subnet, ip) in db.hosts;
    }
    forall p ensures DetailedAt(db, EnrichAll(db, subnet, reports, ids), p, DetailAt(reports, ids, p)) {
      EnrichmentDetails(db, subnet, reports, ids, p);
    }
  }

  // ---- what a finished cycle means ----

  /** The cycle probed the port's number on its host, whatever the protocol of the row. */
  ghost predicate WasProbed(db: Db, n: Net, p: PortKey) {
    exists ip | ip in Alive(n) + Hits(n) && HostKey(n.subnet, ip) in db.hosts ::
      db.hosts[HostKey(n.subnet, ip)].id == p.host && p.port in Probed(n.probes(ip))
  }

  /** Main: a cycle leaves alone the other tables, the hosts of other subnets and every port row whose host it
      did not scan or whose number it neither probed nor had reported; it loses no row; and a host of the
      subnet that it did not scan is only one miss further. */
  lemma CycleLeavesAlone(before: Db, db: Db, n: Net, threshold: nat, reports: seq<NmapHost>, ids: map<string, nat>,
                         k: HostKey, p: PortKey)
    requires Cycled(before, db, n, threshold, reports, ids)
    ensures db == before.(hosts := db.hosts, ports := db.ports, nextHost := db.nextHost)
    ensures k in before.hosts ==> k in db.hosts && db.hosts[k].id == before.hosts[k].id
    ensures p in before.ports ==> p in db.ports
    ensures k.subnet != n.subnet ==> At(db.hosts, k) == At(before.hosts, k)
    ensures k.subnet == n.subnet && k.ip !in Alive(n) + Hits(n) ==>
              At(db.hosts, k) == if k in before.hosts then Some(Missed(before.hosts[k], threshold)) else None
    ensures p.host !in IdsAt(db.hosts, n.subnet, Alive(n) + Hits(n)) ==> At(db.ports, p) == At(before.ports, p)
    ensures !WasProbed(db, n, p) && !Reported(reports, ids, p) ==> At(db.ports, p) == At(before.ports, p)
  {
    assert HostCycled(before, db, n, threshold, reports, ids, k) && PortCycled(before, db, n, reports, ids, p);
    if p in before.ports { NoneLost(before, db, n, reports, ids, p); }
    TouchedIffReported(reports, ids, p);
    hide Alive, Hits, Reported, DetailAt, UniqueHosts, HasSubnet, AsFound, Probed;
    if p.host in IdsAt(db.hosts, n.subnet, Alive(n) + Hits(n)) {
      var ip :| ip in Alive(n) + Hits(n) && HostKey(n.subnet, ip) in db.hosts &&
                db.hosts[HostKey(n.subnet, ip)].id == p.host;
      ScanRowShape(At(before.ports, p), p, n.probes(ip), n.guess);
      hide ScanRow;
    }
  }

  /** Main: after a cycle a probed TCP port is open if and only if the scan found it open or nmap reported it. */
  lemma OpenIffFoundOrReported(before: Db, db: Db, n: Net, threshold: nat, reports: seq<NmapHost>,
                               ids: map<string, nat>, ip: string, port: int)
    requires Cycled(before, db, n, threshold, reports, ids)
    requires ip in Alive(n) + Hits(n) && port in Probed(n.probes(ip))
    ensures HostKey(n.subnet, ip) in db.hosts
    ensures var p := Tcp(db.hosts[HostKey(n.subnet, ip)].id, port);
            p in db.ports && db.ports[p].open <==> port in FoundOpen(n.probes(ip)) || Reported(reports, ids, p)
  {
    var k := HostKey(n.subnet, ip);
    assert HostCycled(before, db, n, threshold, reports, ids, k);
    assert k in db.hosts by { hide AsFound, Alive, Hits; }
    var p := Tcp(db.hosts[k].id, port);
    assert PortCycled(before, db, n, reports, ids, p);
    TouchedIffReported(reports, ids, p);
    ScanRowShape(At(before.ports, p), p, n.probes(ip), n.guess);
    hide Alive, Hits, Reported, DetailAt, UniqueHosts, HasSubnet, AsFound, Probed, FoundOpen, ProbedRow, HostCycled;
    assert At(db.ports, p) ==
           Detailed(ScanRow(At(before.ports, p), p, n.probes(ip), n.guess), DetailAt(reports, ids, p));
  }

  /** Main: after a cycle exactly the live hosts of the subnet are up without a miss on its account; the others
      have status and misses as one more miss leaves them, and a new one among them is unknown. */
  lemma CycleStatus(before: Db, db: Db, n: Net, threshold: nat, reports: seq<NmapHost>, ids: map<string, nat>,
                    k: HostKey)
    requires Cycled(before, db, n, threshold, reports, ids) && k in db.hosts && k.subnet == n.subnet
    ensures k.ip in Alive(n) ==> db.hosts[k].status == Up && db.hosts[k].misses == 0
    ensures k.ip !in Alive(n) && k in before.hosts ==>
              var m := Missed(before.hosts[k], threshold);
              db.hosts[k].status == m.status && db.hosts[k].misses == m.misses
    ensures k.ip !in Alive(n) && k !in before.hosts ==>
              k.ip in Hits(n) && db.hosts[k].status == Unknown && db.hosts[k].misses == 1
  {
    assert HostCycled(before, db, n, threshold, reports, ids, k);
    if k.ip in Alive(n) {
      LiveIsUp(before, db, n, threshold, reports, ids, k);
    } else {
      assert k.ip in Hits(n) ==> FoundOpen(n.probes(k.ip)) == {};
    }
    hide Alive, Hits, StillAcked, SightingAt, FoundOpen, Framed;
  }

  /** Main: over a cycle a host keeps its acknowledgement if and only if it gets no new port row. */
  lemma CycleAcks(before: Db, db: Db, n: Net, threshold: nat, reports: seq<NmapHost>, ids: map<string, nat>,
                  k: HostKey)
    requires Cycled(before, db, n, threshold, reports, ids) && k in db.hosts
    ensures db.hosts[k].acked <==>
            k in before.hosts && before.hosts[k].acked && !NewAt(before, db, before.hosts[k].id)
  {
    assert HostCycled(before, db, n, threshold, reports, ids, k);
    if k in before.hosts && !(k.subnet == n.subnet && k.ip in Alive(n) + Hits(n)) {
      var id := db.hosts[k].id;
      assert id !in IdsAt(db.hosts, n.subnet, Alive(n) + Hits(n)) by { hide HostCycled, PortCycled, Alive, Hits; }
      forall p: PortKey | p.host == id ensures p in db.ports ==> p in before.ports {
        assert PortCycled(before, db, n, reports, ids, p);
        assert At(db.ports, p) == At(before.ports, p);
      }
    }
    hide Alive, Hits, AsFound, NewAt, SightingAt, PortCycled, UniqueHosts;
  }

  /** Main: the live hosts are the addresses of the range that answer a probe, netdiscover's finds, and the
      other addresses with a PTR record and an open port; besides them only the other addresses with a PTR
      record are scanned. */
  lemma WhoIsAlive(n: Net, ip: string)
    ensures ip in Alive(n) <==>
            || (ip in Addresses(n) && n.answers(ip)) || ip in n.arpFinds
            || (ip in Addresses(n) && n.ptr(ip).Some? && exists p :: p in n.probes(ip) && p.open)
    ensures ip in Alive(n) + Hits(n) <==>
            ip in n.arpFinds || (ip in Addresses(n) && (n.answers(ip) || n.ptr(ip).Some?))
  {
    hide Addresses;
    var open := FoundOpen(n.probes(ip));
    if open != {} {
      var x :| x in open;
      var p :| p in n.probes(ip) && p.open && p.port == x;
    }
    if p :| p in n.probes(ip) && p.open { assert p.port in open; }
  }

  /** A live host has an open port. */
  ghost predicate SomeOpenPort(n: Net) {
    exists ip, p :: ip in Alive(n) && p in n.probes(ip) && p.open
  }

  /** Main: what nmap reports counts exactly if it runs and some live host has an open port for it to look at. */
  lemma WhenEnriched(n: Net)
    ensures n.enrichment.Some? && SomeOpenPort(n) ==> Reports(n) == n.enrichment.value
    ensures n.enrichment.None? || !SomeOpenPort(n) ==> Reports(n) == []
  {
    hide Alive;
    if SomeOpenPort(n) {
      var ip, p :| ip in Alive(n) && p in n.probes(ip) && p.open;
      assert p.port in FoundOpen(n.probes(ip)) && p.port in OpenIn(n, Alive(n));
    }
    if x :| x in OpenIn(n, Alive(n)) {
      var ip :| ip in Alive(n) && x in FoundOpen(n.probes(ip));
      var p :| p in n.probes(ip) && p.open && p.port == x;
    }
  }

  /** The stored row, or one without any text. */
  function StoredOr(hosts: map<HostKey, HostRow>, k: HostKey): HostRow {
    if k in hosts then hosts[k] else HostRow(0, "", "", "", Unknown, Auto, "", 0, false, false)
  }

  /** The first text that is not empty. */
  function Or(a: string, b: string): string {
    if a != "" then a else b
  }

  /** Main: a live host that answered itself and that nmap does not report ends with the MAC of the ARP table,
      or else netdiscover's, the vendor of netdiscover and the name of the reverse lookup, each where there is
      one and otherwise with what was stored; one that only its PTR record and an open port gave away gets the
      MAC of the ARP table and, if it had none, the record's name. Its notes and its origin are kept. */
  lemma CycleTexts(before: Db, db: Db, n: Net, threshold: nat, reports: seq<NmapHost>, ids: map<string, nat>,
                   ip: string)
    requires Cycled(before, db, n, threshold, reports, ids) && forall h | h in reports :: h.ip != ip
    ensures ip in Alive(n) ==> HostKey(n.subnet, ip) in db.hosts && (ip in Hits(n) ==> n.ptr(ip).Some?)
    ensures var old_ := StoredOr(before.hosts, HostKey(n.subnet, ip));
            ip in Alive(n) ==>
              var row := db.hosts[HostKey(n.subnet, ip)];
              && row.notes == old_.notes && row.origin == old_.origin && row.newAck == old_.newAck
              && (if ip in Hits(n)
                  then
                    && row.mac == Or(n.arp(ip), old_.mac) && row.vendor == old_.vendor
                    && row.hostname == Or(old_.hostname, n.ptr(ip).value)
                  else
                    && row.mac == Or(n.arp(ip), Or(if ip in n.arpFinds then n.arpFinds[ip].mac else "", old_.mac))
                    && row.vendor == Or(if ip in n.arpFinds then n.arpFinds[ip].vendor else "", old_.vendor)
                    && row.hostname == Or(n.names(ip), old_.hostname))
  {
    var k := HostKey(n.subnet, ip);
    assert HostCycled(before, db, n, threshold, reports, ids, k);
    NotSighted(reports, ids, ip);
    assert ip in Hits(n) ==> n.ptr(ip).Some?;
    hide Alive, Hits, StillAcked, FoundOpen, Framed, SightingAt;
  }

  lemma {:induction false} NotSighted(reports: seq<NmapHost>, ids: map<string, nat>, ip: string)
    requires forall h | h in reports :: h.ip != ip
    ensures SightingAt(reports, ids, ip) == Sighting("", "")
  {
    if reports != [] {
      assert reports[|reports| - 1] in reports;
      NotSighted(reports[..|reports| - 1], ids, ip);
    }
  }

  /** Main: a port the scan found open, each number being probed once, ends open under the guessed service and
      with the banner that was read or else the stored one; the product and version stay. */
  lemma CycleFoundPort(before: Db, db: Db, n: Net, threshold: nat, reports: seq<NmapHost>, ids: map<string, nat>,
                       ip: string, i: nat)
    requires Cycled(before, db, n, threshold, reports, ids) && ip in Alive(n) + Hits(n)
    requires i < |n.probes(ip)| && n.probes(ip)[i].open
    requires forall a, b | 0 <= a < b < |n.probes(ip)| :: n.probes(ip)[a].port != n.probes(ip)[b].port
    ensures HostKey(n.subnet, ip) in db.hosts
    ensures var probe := n.probes(ip)[i];
            var p := PortKey(db.hosts[HostKey(n.subnet, ip)].id, probe.port, "tcp");
            !Reported(reports, ids, p) ==>
              var old_ := if p in before.ports then before.ports[p] else PortRow(false, "", "", "", "");
              p in db.ports && db.ports[p] ==
                PortRow(true, n.guess(probe.port), Or(probe.banner, old_.banner), old_.product, old_.version)
  {
    var k, probes := HostKey(n.subnet, ip), n.probes(ip);
    assert HostCycled(before, db, n, threshold, reports, ids, k);
    assert k in db.hosts by { hide AsFound, Alive, Hits; }
    var p := PortKey(db.hosts[k].id, probes[i].port, "tcp");
    assert PortCycled(before, db, n, reports, ids, p);
    TouchedIffReported(reports, ids, p);
    ProbedOnce(At(before.ports, p), p, probes, n.guess, i);
    assert probes[i] in probes && p.port in FoundOpen(probes);
    hide Alive, Hits, Reported, DetailAt, AsFound, FoundOpen, ProbedRow, HostCycled, Framed;
    assert At(db.ports, p) == Detailed(ScanRow(At(before.ports, p), p, probes, n.guess), DetailAt(reports, ids, p));
  }

  /** An ARP find with port 22 open and port 80 closed, which nmap, asked about the ports that are open somewhere
      on the subnet, reports with port 80 open. */
  const Reopening: Net := Net(
    1, V4(0x0A00_0004, 30), 4096, _ => false, map["10.0.0.5" := ArpFind("", "")], _ => None,
    _ => [Probe(22, true, ""), Probe(80, false, "")], _ => "", _ => "", _ => "",
    Some([NmapHost("10.0.0.5", "", "", "", [NmapPort(80, "http", "", "", "")])]))

  lemma ReopeningHears()
    ensures var n, ip := Reopening, "10.0.0.5";
            && ip in Alive(n) && Reports(n) == n.enrichment.value
            && 80 in Probed(n.probes(ip)) && 80 !in FoundOpen(n.probes(ip))
            && PortReported(Reports(n)[0].ports, Tcp(0, 80))
  {
    var n, ip := Reopening, "10.0.0.5";
    assert n.probes(ip)[0] in n.probes(ip) && n.probes(ip)[1] in n.probes(ip);
    assert ip in n.arpFinds.Keys && ip in Alive(n);
    hide Alive, Addresses;
    assert 22 in FoundOpen(n.probes(ip)) && 22 in OpenIn(n, Alive(n));
    var ports := n.enrichment.value[0].ports;
    assert ports[0] in ports && ReportKey(0, ports[0]) == Tcp(0, 80);
  }

  /** So enrichment does decide what is open: it opens the port that the scan of this very cycle closed. */
  lemma NmapCanReopen(before: Db, db: Db, threshold: nat, ids: map<string, nat>)
    requires Cycled(before, db, Reopening, threshold, Reports(Reopening), ids)
    ensures !Crowded(Reopening)
    ensures 80 in Probed(Reopening.probes("10.0.0.5")) && 80 !in FoundOpen(Reopening.probes("10.0.0.5"))
    ensures HostKey(1, "10.0.0.5") in db.hosts
    ensures var p := Tcp(db.hosts[HostKey(1, "10.0.0.5")].id, 80); p in db.ports && db.ports[p].open
  {
    hide Alive, Hits, HostCycled, PortCycled, Framed, Crowded, Reports, Probed, FoundOpen;
    RoomForOne();
    ReopeningHears();
    var n, ip := Reopening, "10.0.0.5";
    OpenIffFoundOrReported(before, db, n, threshold, Reports(n), ids, ip, 80);
    var p := Tcp(db.hosts[HostKey(1, ip)].id, 80);
    var h := Reports(n)[0];
    var q :| q in h.ports && ReportKey(0, q) == Tcp(0, 80);
    assert ReportKey(p.host, q) == p;
    assert h in Reports(n) && PortReported(h.ports, p) && ids[h.ip] == p.host;
  }

  lemma RoomForOne()
    ensures !Crowded(Reopening)
  {
    var n := Reopening;
    ExpansionIsExact(n.cidr.addr, 2, 4096);
    assert Pow2(2) == 4;
    hide Expansion, Quad;
    assert Responders(n) + n.arpFinds.Keys == {"10.0.0.5"};
  }
}
