/** The four inventory tables as values, each keyed by its UNIQUE constraint, and what one
    mutex-guarded statement block of the store does to them.

    `UPDATE ... WHERE id = ?` is a comprehension over the whole table: a missing id changes nothing.
    An INSERT whose foreign key is missing, or whose UNIQUE key is taken, leaves the tables unchanged. */
module Tables {
  import opened Options

  datatype Status = Up | Down | Unknown

  datatype Origin = Auto | Manual

  datatype SubnetRow = SubnetRow(id: nat, name: string, origin: Origin, iface: string, enabled: bool, hidden: bool)

  datatype HostKey = HostKey(subnet: nat, ip: string)

  datatype HostRow = HostRow(
    id: nat, mac: string, hostname: string, vendor: string, status: Status, origin: Origin,
    notes: string, misses: nat, acked: bool, newAck: bool)

  datatype PortKey = PortKey(host: nat, port: int, proto: string)

  datatype PortRow = PortRow(open: bool, service: string, banner: string, product: string, version: string)

  datatype Rule = Rule(
    port: int, service: string, severity: string, caption: string, enabled: bool, versionBelow: string)

  datatype Db = Db(
    subnets: map<string, SubnetRow>, hosts: map<HostKey, HostRow>, ports: map<PortKey, PortRow>,
    rules: map<nat, Rule>, nextSubnet: nat, nextHost: nat, nextRule: nat)

  const Empty: Db := Db(map[], map[], map[], map[], 1, 1, 1)

  /** What an upsert reports: the row's id and whether the call created it. */
  datatype Upsert = Failed | Stored(id: nat, isNew: bool)

  predicate HasSubnet(subnets: map<string, SubnetRow>, id: nat) {
    exists c | c in subnets :: subnets[c].id == id
  }

  predicate HasHost(hosts: map<HostKey, HostRow>, id: nat) {
    exists k | k in hosts :: hosts[k].id == id
  }

  ghost predicate UniqueSubnets(subnets: map<string, SubnetRow>, next: nat) {
    && (forall c | c in subnets :: subnets[c].id < next)
    && (forall c, d | c in subnets && d in subnets && subnets[c].id == subnets[d].id :: c == d)
  }

  ghost predicate UniqueHosts(hosts: map<HostKey, HostRow>, next: nat) {
    && (forall k | k in hosts :: hosts[k].id < next)
    && (forall k, l | k in hosts && l in hosts && hosts[k].id == hosts[l].id :: k == l)
  }

  ghost predicate HostsPlaced(hosts: map<HostKey, HostRow>, subnets: map<string, SubnetRow>) {
    forall k | k in hosts :: HasSubnet(subnets, k.subnet)
  }

  ghost predicate PortsPlaced(ports: map<PortKey, PortRow>, hosts: map<HostKey, HostRow>) {
    forall p | p in ports :: HasHost(hosts, p.host)
  }

  /** Every run keeps this: ids are unique and below their counters, and foreign keys resolve. */
  ghost predicate Sound(db: Db) {
    && UniqueSubnets(db.subnets, db.nextSubnet)
    && UniqueHosts(db.hosts, db.nextHost)
    && HostsPlaced(db.hosts, db.subnets)
    && PortsPlaced(db.ports, db.hosts)
    && (forall r | r in db.rules :: r < db.nextRule)
  }

  /** The stored value unless the new one says something: how an update treats an optional column. */
  function Over(old_: string, new_: string): string {
    if new_ == "" then old_ else new_
  }

  /** The new value only where nothing is stored: how an import treats an optional column. */
  function Fill(old_: string, new_: string): string {
    if old_ == "" then new_ else old_
  }

  // ---- subnets ----

  function UpsertAutoSubnet(db: Db, cidr: string, name: string, iface: string): Db {
    if cidr in db.subnets then
      var row := db.subnets[cidr];
      db.(subnets := db.subnets[cidr := row.(name := Fill(row.name, name))])
    else
      db.(subnets := db.subnets[cidr := SubnetRow(db.nextSubnet, name, Auto, iface, true, false)],
          nextSubnet := db.nextSubnet + 1)
  }

  function AddManualSubnet(db: Db, cidr: string, name: string): Db {
    if cidr in db.subnets then db
    else db.(subnets := db.subnets[cidr := SubnetRow(db.nextSubnet, name, Manual, "", true, false)],
             nextSubnet := db.nextSubnet + 1)
  }

  datatype SubnetEdit = SetHidden(hidden: bool) | SetEnabled(enabled: bool) | SetName(name: string)

  function EditSubnetRow(row: SubnetRow, e: SubnetEdit): SubnetRow {
    match e
    case SetHidden(v) => row.(hidden := v)
    case SetEnabled(v) => row.(enabled := v)
    case SetName(v) => row.(name := v)
  }

  function EditSubnet(db: Db, id: nat, e: SubnetEdit): Db {
    db.(subnets := map c | c in db.subnets ::
      if db.subnets[c].id == id then EditSubnetRow(db.subnets[c], e) else db.subnets[c])
  }

  /** Deleting a subnet cascades to its hosts and their ports. */
  function DeleteSubnet(db: Db, id: nat): Db {
    var rest := map c | c in db.subnets && db.subnets[c].id != id :: db.subnets[c];
    RemoveHosts(db.(subnets := rest), set k | k in db.hosts && k.subnet == id)
  }

  // ---- hosts ----

  function UpsertHost(db: Db, subnet: nat, ip: string, mac: string, hostname: string, vendor: string): Db {
    var k := HostKey(subnet, ip);
    if k in db.hosts then
      var h := db.hosts[k];
      db.(hosts := db.hosts[k := h.(status := Up, misses := 0, mac := Over(h.mac, mac),
                                    hostname := Over(h.hostname, hostname), vendor := Over(h.vendor, vendor))])
    else
      InsertHost(db, k, HostRow(db.nextHost, mac, hostname, vendor, Up, Auto, "", 0, false, false))
  }

  function InsertHost(db: Db, k: HostKey, row: HostRow): Db {
    if HasSubnet(db.subnets, k.subnet) then db.(hosts := db.hosts[k := row], nextHost := db.nextHost + 1) else db
  }

  function UpsertUnconfirmedHost(db: Db, subnet: nat, ip: string, hostname: string): Db {
    var k := HostKey(subnet, ip);
    if k in db.hosts then
      var h := db.hosts[k];
      db.(hosts := db.hosts[k := h.(hostname := Fill(h.hostname, hostname))])
    else
      InsertHost(db, k, HostRow(db.nextHost, "", hostname, "", Unknown, Auto, "", 0, false, false))
  }

  function ImportHost(db: Db, subnet: nat, ip: string, mac: string, hostname: string, vendor: string,
                      notes: string): Db {
    var k := HostKey(subnet, ip);
    if k in db.hosts then
      var h := db.hosts[k];
      db.(hosts := db.hosts[k := h.(mac := Fill(h.mac, mac), hostname := Fill(h.hostname, hostname),
                                    vendor := Fill(h.vendor, vendor))])
    else
      InsertHost(db, k, HostRow(db.nextHost, mac, hostname, vendor, Unknown, Auto, notes, 0, false, false))
  }

  function AddManualHost(db: Db, subnet: nat, ip: string, hostname: string, notes: string): Db {
    var k := HostKey(subnet, ip);
    if k in db.hosts then db
    else InsertHost(db, k, HostRow(db.nextHost, "", hostname, "", Up, Manual, notes, 0, false, false))
  }

  datatype HostEdit =
    | Confirm
    | SetNotes(text: string)
    | SetHostname(text: string)
    | SetMac(text: string)
    | SetAck(acked: bool)
    | DismissNew

  function EditHostRow(h: HostRow, e: HostEdit): HostRow {
    match e
    case Confirm => h.(status := Up, misses := 0)
    case SetNotes(t) => h.(notes := t)
    case SetHostname(t) => h.(hostname := t)
    case SetMac(t) => h.(mac := t)
    case SetAck(v) => h.(acked := v)
    case DismissNew => h.(newAck := true)
  }

  function EditHost(db: Db, id: nat, e: HostEdit): Db {
    db.(hosts := map k | k in db.hosts ::
      if db.hosts[k].id == id then EditHostRow(db.hosts[k], e) else db.hosts[k])
  }

  function DismissAllNew(db: Db): Db {
    db.(hosts := map k | k in db.hosts :: db.hosts[k].(newAck := true))
  }

  /** Deleting hosts cascades to their ports. */
  function RemoveHosts(db: Db, dead: set<HostKey>): Db {
    var rest := map k | k in db.hosts && k !in dead :: db.hosts[k];
    var gone := set k | k in db.hosts && k in dead :: db.hosts[k].id;
    db.(hosts := rest, ports := map p | p in db.ports && p.host !in gone :: db.ports[p])
  }

  function DeleteHost(db: Db, id: nat): Db {
    RemoveHosts(db, set k | k in db.hosts && db.hosts[k].id == id)
  }

  /** One more missed cycle: only a host that is up can go down. */
  function Missed(h: HostRow, threshold: nat): HostRow {
    h.(misses := h.misses + 1,
       status := if h.misses + 1 >= threshold && h.status == Up then Down else h.status)
  }

  predicate Unseen(k: HostKey, subnet: nat, seen: set<string>) {
    k.subnet == subnet && k.ip !in seen
  }

  function SweepMissing(db: Db, subnet: nat, seen: set<string>, threshold: nat): Db {
    db.(hosts := map k | k in db.hosts ::
      if Unseen(k, subnet, seen) then Missed(db.hosts[k], threshold) else db.hosts[k])
  }

  /** The hosts a sweep of `subnet` takes down: the ids `SweepMissingHosts` returns. */
  ghost function WentDown(db: Db, subnet: nat, seen: set<string>, threshold: nat): set<HostKey> {
    set k | k in db.hosts && Unseen(k, subnet, seen) && db.hosts[k].status == Up && db.hosts[k].misses + 1 >= threshold
  }

  // ---- ports ----

  const NoPort := PortRow(false, "", "", "", "")

  function Observed(row: PortRow, service: string, banner: string, product: string, version: string): PortRow {
    PortRow(true, service, Over(row.banner, banner), Over(row.product, product), Over(row.version, version))
  }

  function UpsertPort(db: Db, k: PortKey, service: string, banner: string, product: string, version: string): Db {
    if k in db.ports then
      db.(ports := db.ports[k := Observed(db.ports[k], service, banner, product, version)])
    else if HasHost(db.hosts, k.host) then
      db.(ports := db.ports[k := PortRow(true, service, banner, product, version)])
    else
      db
  }

  predicate Closes(k: PortKey, row: PortRow, host: nat, probed: set<int>, open: set<int>) {
    k.host == host && k.port in probed && k.port !in open && row.open
  }

  function SweepPorts(db: Db, host: nat, probed: set<int>, open: set<int>): Db {
    db.(ports := map k | k in db.ports ::
      if Closes(k, db.ports[k], host, probed, open) then db.ports[k].(open := false) else db.ports[k])
  }

  // ---- risk rules ----

  function CreateRule(db: Db, r: Rule): Db {
    var severity := if r.severity == "" then "warning" else r.severity;
    db.(rules := db.rules[db.nextRule := r.(severity := severity)], nextRule := db.nextRule + 1)
  }

  /** The fields an update sets; a missing one leaves the rule's value. */
  datatype RuleEdit = RuleEdit(
    port: Option<int>, caption: Option<string>, severity: Option<string>, service: Option<string>,
    versionBelow: Option<string>, enabled: Option<bool>)

  function Set<T>(old_: T, new_: Option<T>): T {
    if new_.Some? then new_.value else old_
  }

  function EditRule(r: Rule, e: RuleEdit): Rule {
    Rule(Set(r.port, e.port), Set(r.service, e.service), Set(r.severity, e.severity), Set(r.caption, e.caption),
         Set(r.enabled, e.enabled), Set(r.versionBelow, e.versionBelow))
  }

  function UpdateRule(db: Db, id: nat, e: RuleEdit): Db {
    if id in db.rules then db.(rules := db.rules[id := EditRule(db.rules[id], e)]) else db
  }
}
