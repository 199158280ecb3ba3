/** Runs of the store: any sequence of its mutex-atomic operations, from an empty inventory.
    A scan cycle, an import or a user request is some interleaving of these. */
module Runs {
  import opened Tables

  datatype Op =
    | AutoSubnet(cidr: string, name: string, iface: string)
    | ManualSubnet(cidr: string, name: string)
    | ChangeSubnet(subnetId: nat, subnetEdit: SubnetEdit)
    | DropSubnet(subnetId: nat)
    | SeeHost(subnet: nat, ip: string, mac: string, hostname: string, vendor: string)
    | SeeName(subnet: nat, ip: string, hostname: string)
    | RestoreHost(subnet: nat, ip: string, mac: string, hostname: string, vendor: string, notes: string)
    | ManualHost(subnet: nat, ip: string, hostname: string, notes: string)
    | ChangeHost(hostId: nat, hostEdit: HostEdit)
    | DismissAll
    | DropHost(hostId: nat)
    | DropAllHosts
    | SweepHosts(subnet: nat, seen: set<string>)
    | SeePort(key: PortKey, service: string, banner: string, product: string, version: string)
    | ClosePorts(hostId: nat, probed: set<int>, open: set<int>)
    | NewRule(rule: Rule)
    | ChangeRule(ruleId: nat, ruleEdit: RuleEdit)
    | DropRule(ruleId: nat)

  type Run = seq<Op>

  /** No writer of port rows leaves the protocol out. */
  function WithProtocol(k: PortKey): PortKey {
    if k.proto == "" then k.(proto := "tcp") else k
  }

  /** One atomic store call; `threshold` is the fixed number of misses that takes a host down. */
  function Apply(db: Db, op: Op, threshold: nat): Db {
    match op
    case AutoSubnet(c, n, i) => UpsertAutoSubnet(db, c, n, i)
    case ManualSubnet(c, n) => AddManualSubnet(db, c, n)
    case ChangeSubnet(id, e) => EditSubnet(db, id, e)
    case DropSubnet(id) => DeleteSubnet(db, id)
    case SeeHost(s, ip, m, n, v) => UpsertHost(db, s, ip, m, n, v)
    case SeeName(s, ip, n) => UpsertUnconfirmedHost(db, s, ip, n)
    case RestoreHost(s, ip, m, n, v, t) => ImportHost(db, s, ip, m, n, v, t)
    case ManualHost(s, ip, n, t) => AddManualHost(db, s, ip, n, t)
    case ChangeHost(id, e) => EditHost(db, id, e)
    case DismissAll => DismissAllNew(db)
    case DropHost(id) => DeleteHost(db, id)
    case DropAllHosts => RemoveHosts(db, db.hosts.Keys)
    case SweepHosts(s, seen) => SweepMissing(db, s, seen, threshold)
    case SeePort(k, s, b, p, v) => UpsertPort(db, WithProtocol(k), s, b, p, v)
    case ClosePorts(h, probed, open) => SweepPorts(db, h, probed, open)
    case NewRule(r) => CreateRule(db, r)
    case ChangeRule(id, e) => UpdateRule(db, id, e)
    case DropRule(id) => db.(rules := map r | r in db.rules && r != id :: db.rules[r])
  }

  function Exec(run: Run, threshold: nat): Db {
    if run == [] then Empty
    else Apply(Exec(run[..|run| - 1], threshold), run[|run| - 1], threshold)
  }

  /** Foreign keys to subnets survive any change that keeps the ids in the table. */
  lemma SubnetsGrow(hosts: map<HostKey, HostRow>, old_: map<string, SubnetRow>, new_: map<string, SubnetRow>)
    requires HostsPlaced(hosts, old_)
    requires forall c | c in old_ :: c in new_ && new_[c].id == old_[c].id
    ensures HostsPlaced(hosts, new_)
  {
  }

  /** Foreign keys to hosts, likewise. */
  lemma HostsGrow(ports: map<PortKey, PortRow>, old_: map<HostKey, HostRow>, new_: map<HostKey, HostRow>)
    requires PortsPlaced(ports, old_)
    requires forall k | k in old_ :: k in new_ && new_[k].id == old_[k].id
    ensures PortsPlaced(ports, new_)
  {
  }

  lemma PutHost(hosts: map<HostKey, HostRow>, next: nat, k: HostKey, row: HostRow)
    requires UniqueHosts(hosts, next)
    requires if k in hosts then row.id == hosts[k].id else row.id == next
    ensures UniqueHosts(hosts[k := row], if k in hosts then next else next + 1)
  {
  }

  /** With unique ids, `UPDATE hosts ... WHERE id = ?` rewrites one row. */
  lemma EditHostAt(db: Db, k: HostKey, e: HostEdit)
    requires UniqueHosts(db.hosts, db.nextHost) && k in db.hosts
    ensures EditHost(db, db.hosts[k].id, e) == db.(hosts := db.hosts[k := EditHostRow(db.hosts[k], e)])
  {
    assert EditHost(db, db.hosts[k].id, e).hosts == db.hosts[k := EditHostRow(db.hosts[k], e)];
  }

  /** The host upserts either rewrite one row in place or insert a fresh id. */
  lemma PutHostSound(db: Db, k: HostKey, row: HostRow)
    requires Sound(db) && HasSubnet(db.subnets, k.subnet)
    requires if k in db.hosts then row.id == db.hosts[k].id else row.id == db.nextHost
    ensures Sound(db.(hosts := db.hosts[k := row], nextHost := if k in db.hosts then db.nextHost else db.nextHost + 1))
  {
    var hosts := db.hosts[k := row];
    PutHost(db.hosts, db.nextHost, k, row);
    HostsGrow(db.ports, db.hosts, hosts);
    forall l | l in hosts ensures HasSubnet(db.subnets, l.subnet) {
      assert l in db.hosts || l == k;
    }
  }

  lemma InsertHostSound(db: Db, k: HostKey, row: HostRow)
    requires Sound(db) && k !in db.hosts && row.id == db.nextHost
    ensures Sound(InsertHost(db, k, row))
  {
    if HasSubnet(db.subnets, k.subnet) {
      PutHostSound(db, k, row);
    }
  }

  lemma RewriteHostSound(db: Db, k: HostKey, row: HostRow)
    requires Sound(db) && k in db.hosts && row.id == db.hosts[k].id
    ensures Sound(db.(hosts := db.hosts[k := row]))
  {
    assert HasSubnet(db.subnets, k.subnet);
    PutHostSound(db, k, row);
  }

  lemma AddSubnetSound(db: Db, cidr: string, row: SubnetRow)
    requires Sound(db)
    requires if cidr in db.subnets then row.id == db.subnets[cidr].id else row.id == db.nextSubnet
    ensures Sound(db.(subnets := db.subnets[cidr := row],
                      nextSubnet := if cidr in db.subnets then db.nextSubnet else db.nextSubnet + 1))
  {
    SubnetsGrow(db.hosts, db.subnets, db.subnets[cidr := row]);
  }

  /** In-place changes to host rows that keep every id. */
  lemma SameHostsSound(db: Db, hosts: map<HostKey, HostRow>)
    requires Sound(db) && hosts.Keys == db.hosts.Keys
    requires forall k | k in hosts :: hosts[k].id == db.hosts[k].id
    ensures Sound(db.(hosts := hosts))
  {
  }

  lemma SameSubnetsSound(db: Db, subnets: map<string, SubnetRow>)
    requires Sound(db) && subnets.Keys == db.subnets.Keys
    requires forall c | c in subnets :: subnets[c].id == db.subnets[c].id
    ensures Sound(db.(subnets := subnets))
  {
  }

  /** Removing hosts together with their ports leaves no dangling port. */
  lemma RemoveHostsSound(db: Db, dead: set<HostKey>, keep: map<string, SubnetRow>)
    requires Sound(db) && UniqueSubnets(keep, db.nextSubnet)
    requires forall k | k in db.hosts && k !in dead :: HasSubnet(keep, k.subnet)
    ensures Sound(RemoveHosts(db.(subnets := keep), dead))
  {
    var db' := RemoveHosts(db.(subnets := keep), dead);
    forall p | p in db'.ports ensures HasHost(db'.hosts, p.host) {
      assert HasHost(db.hosts, p.host);
      var k :| k in db.hosts && db.hosts[k].id == p.host;
      assert k in db'.hosts && db'.hosts[k].id == p.host;
    }
  }

  lemma DropHostsSound(db: Db, dead: set<HostKey>)
    requires Sound(db)
    ensures Sound(RemoveHosts(db, dead))
  {
    RemoveHostsSound(db, dead, db.subnets);
    assert db.(subnets := db.subnets) == db;
  }

  lemma DeleteSubnetSound(db: Db, id: nat)
    requires Sound(db)
    ensures Sound(DeleteSubnet(db, id))
  {
    var keep := map c | c in db.subnets && db.subnets[c].id != id :: db.subnets[c];
    forall k | k in db.hosts && k.subnet != id ensures HasSubnet(keep, k.subnet) {
      assert HasSubnet(db.subnets, k.subnet);
      var c :| c in db.subnets && db.subnets[c].id == k.subnet;
      assert c in keep && keep[c].id == k.subnet;
    }
    RemoveHostsSound(db, (set k | k in db.hosts && k.subnet == id), keep);
  }

  lemma HostStepSound(db: Db, op: Op, threshold: nat)
    requires Sound(db)
    requires op.SeeHost? || op.SeeName? || op.RestoreHost? || op.ManualHost?
    ensures Sound(Apply(db, op, threshold))
  {
    hide Sound;
    var db' := Apply(db, op, threshold);
    var k := HostKey(op.subnet, op.ip);
    if k in db.hosts {
      RewriteHostSound(db, k, db'.hosts[k]);
    } else if HasSubnet(db.subnets, k.subnet) {
      InsertHostSound(db, k, db'.hosts[k]);
    }
  }

  lemma PortStepSound(db: Db, op: Op, threshold: nat)
    requires Sound(db) && (op.SeePort? || op.ClosePorts?)
    ensures Sound(Apply(db, op, threshold))
  {
  }

  lemma RuleStepSound(db: Db, op: Op, threshold: nat)
    requires Sound(db) && (op.NewRule? || op.ChangeRule? || op.DropRule?)
    ensures Sound(Apply(db, op, threshold))
  {
  }

  /** Every operation keeps ids unique and foreign keys resolved, cascades included. */
  lemma StepSound(db: Db, op: Op, threshold: nat)
    requires Sound(db)
    ensures Sound(Apply(db, op, threshold))
  {
    hide Sound;
    var db' := Apply(db, op, threshold);
    match op {
      case AutoSubnet(c, _, _) => AddSubnetSound(db, c, db'.subnets[c]);
      case ManualSubnet(c, _) => if c !in db.subnets { AddSubnetSound(db, c, db'.subnets[c]); }
      case ChangeSubnet(_, _) => SameSubnetsSound(db, db'.subnets);
      case DropSubnet(id) => DeleteSubnetSound(db, id);
      case SeeHost(_, _, _, _, _) => HostStepSound(db, op, threshold);
      case SeeName(_, _, _) => HostStepSound(db, op, threshold);
      case RestoreHost(_, _, _, _, _, _) => HostStepSound(db, op, threshold);
      case ManualHost(_, _, _, _) => HostStepSound(db, op, threshold);
      case ChangeHost(_, _) => SameHostsSound(db, db'.hosts);
      case DismissAll => SameHostsSound(db, db'.hosts);
      case DropHost(id) => DropHostsSound(db, set k | k in db.hosts && db.hosts[k].id == id);
      case DropAllHosts => DropHostsSound(db, db.hosts.Keys);
      case SweepHosts(_, _) => SameHostsSound(db, db'.hosts);
      case SeePort(_, _, _, _, _) => PortStepSound(db, op, threshold);
      case ClosePorts(_, _, _) => PortStepSound(db, op, threshold);
      case NewRule(_) => RuleStepSound(db, op, threshold);
      case ChangeRule(_, _) => RuleStepSound(db, op, threshold);
      case DropRule(_) => RuleStepSound(db, op, threshold);
    }
  }

  /** Main: every reachable inventory is sound. */
  lemma {:induction false} RunsSound(run: Run, threshold: nat)
    ensures Sound(Exec(run, threshold))
  {
    if run != [] {
      var before := run[..|run| - 1];
      RunsSound(before, threshold);
      StepSound(Exec(before, threshold), run[|run| - 1], threshold);
    }
  }

  // ---- what one call can do to ids and port rows ----

  /** Every host id after a call was there before it or is the next fresh one. */
  lemma IdsFromBefore(db: Db, op: Op, threshold: nat, k: HostKey)
    requires k in Apply(db, op, threshold).hosts
    ensures var id := Apply(db, op, threshold).hosts[k].id;
            (k in db.hosts && db.hosts[k].id == id) || id == db.nextHost
  {
    if op.SeeHost? || op.SeeName? || op.RestoreHost? || op.ManualHost? {
      UpsertIds(db, op, threshold, k);
    } else if op.ChangeHost? || op.DismissAll? || op.SweepHosts? {
      RewriteIds(db, op, threshold, k);
    } else {
      OtherIds(db, op, threshold, k);
    }
    hide Apply;
  }

  lemma UpsertIds(db: Db, op: Op, threshold: nat, k: HostKey)
    requires op.SeeHost? || op.SeeName? || op.RestoreHost? || op.ManualHost?
    requires k in Apply(db, op, threshold).hosts
    ensures var id := Apply(db, op, threshold).hosts[k].id;
            (k in db.hosts && db.hosts[k].id == id) || id == db.nextHost
  {
    hide Fill, Over, HasSubnet, HasHost;
  }

  lemma RewriteIds(db: Db, op: Op, threshold: nat, k: HostKey)
    requires op.ChangeHost? || op.DismissAll? || op.SweepHosts?
    requires k in Apply(db, op, threshold).hosts
    ensures k in db.hosts && db.hosts[k].id == Apply(db, op, threshold).hosts[k].id
  {
  }

  lemma OtherIds(db: Db, op: Op, threshold: nat, k: HostKey)
    requires !(op.SeeHost? || op.SeeName? || op.RestoreHost? || op.ManualHost?)
    requires !(op.ChangeHost? || op.DismissAll? || op.SweepHosts?)
    requires k in Apply(db, op, threshold).hosts
    ensures k in db.hosts && db.hosts[k].id == Apply(db, op, threshold).hosts[k].id
  {
    hide HasHost, HasSubnet;
  }

  lemma FreshIdsGrow(db: Db, op: Op, threshold: nat)
    ensures db.nextHost <= Apply(db, op, threshold).nextHost
  {
  }

  /** A deleted host's id never comes back. */
  lemma StepKeepsGone(db: Db, op: Op, threshold: nat, id: nat)
    requires id < db.nextHost && !HasHost(db.hosts, id)
    ensures !HasHost(Apply(db, op, threshold).hosts, id) && id < Apply(db, op, threshold).nextHost
  {
    hide Apply;
    FreshIdsGrow(db, op, threshold);
    var hosts := Apply(db, op, threshold).hosts;
    if HasHost(hosts, id) {
      var k :| k in hosts && hosts[k].id == id;
      IdsFromBefore(db, op, threshold, k);
    }
  }

  lemma RemovalLosesPort(db: Db, dead: set<HostKey>, k: PortKey)
    requires UniqueHosts(db.hosts, db.nextHost)
    requires k in db.ports && k !in RemoveHosts(db, dead).ports
    ensures !HasHost(RemoveHosts(db, dead).hosts, k.host) && HasHost(db.hosts, k.host)
  {
  }

  /** Only the three deletions remove port rows. */
  lemma OthersKeepPorts(db: Db, op: Op, threshold: nat, k: PortKey)
    requires k in db.ports && !op.DropSubnet? && !op.DropHost? && !op.DropAllHosts?
    ensures k in Apply(db, op, threshold).ports
  {
  }

  lemma StepLosesPortWithHost(db: Db, op: Op, threshold: nat, k: PortKey)
    requires UniqueHosts(db.hosts, db.nextHost) && HasHost(db.hosts, k.host)
    requires k in db.ports && k !in Apply(db, op, threshold).ports
    ensures !HasHost(Apply(db, op, threshold).hosts, k.host)
    ensures k.host < Apply(db, op, threshold).nextHost
  {
    hide RemoveHosts, UniqueHosts;
    IdsBelowNext(db, k.host);
    if op.DropSubnet? {
      var rest := map c | c in db.subnets && db.subnets[c].id != op.subnetId :: db.subnets[c];
      var dead := set h | h in db.hosts && h.subnet == op.subnetId;
      RemovalLosesPort(db.(subnets := rest), dead, k);
      RemovalKeepsNext(db.(subnets := rest), dead);
    } else if op.DropHost? {
      var dead := set h | h in db.hosts && db.hosts[h].id == op.hostId;
      RemovalLosesPort(db, dead, k);
      RemovalKeepsNext(db, dead);
    } else if op.DropAllHosts? {
      RemovalLosesPort(db, db.hosts.Keys, k);
      RemovalKeepsNext(db, db.hosts.Keys);
    } else {
      OthersKeepPorts(db, op, threshold, k);
    }
  }

  lemma IdsBelowNext(db: Db, id: nat)
    requires UniqueHosts(db.hosts, db.nextHost) && HasHost(db.hosts, id)
    ensures id < db.nextHost
  {
  }

  lemma RemovalKeepsNext(db: Db, dead: set<HostKey>)
    ensures RemoveHosts(db, dead).nextHost == db.nextHost
  {
  }

  // ---- protocols ----

  /** Every port row names its protocol: scans write "tcp", imports default to it. */
  ghost predicate ProtocolsNamed(db: Db) {
    forall k | k in db.ports :: k.proto != ""
  }

  lemma StepNamesProtocols(db: Db, op: Op, threshold: nat)
    requires ProtocolsNamed(db)
    ensures ProtocolsNamed(Apply(db, op, threshold))
  {
    hide UpsertAutoSubnet, AddManualSubnet, EditSubnet, UpsertHost, UpsertUnconfirmedHost, ImportHost, AddManualHost;
    hide EditHost, SweepMissing;
    hide HasHost, Observed;
    if !op.SeePort? {
      forall k | k in Apply(db, op, threshold).ports ensures k in db.ports { NoNewPort(db, op, threshold, k); }
    }
  }

  lemma NoNewPort(db: Db, op: Op, threshold: nat, k: PortKey)
    requires !op.SeePort? && k in Apply(db, op, threshold).ports
    ensures k in db.ports
  {
  }

  /** So does every run. */
  lemma {:induction false} RunsNameProtocols(run: Run, threshold: nat)
    ensures ProtocolsNamed(Exec(run, threshold))
  {
    if run != [] {
      hide Apply, ProtocolsNamed;
      var before := run[..|run| - 1];
      RunsNameProtocols(before, threshold);
      StepNamesProtocols(Exec(before, threshold), run[|run| - 1], threshold);
    } else {
      assert ProtocolsNamed(Empty);
    }
  }
}
