/** Export documents and the importers that merge them into a store. Whether a text parses as a CIDR
    or an address is an arbitrary predicate. Maps from document ids to row ids are rebuilt per import. */
module Imports {
  import opened Tables
  import opened Stores

  datatype Segment = Segment(id: string, name: string, cidr: string, hidden: bool, enabled: bool)

  datatype DocHost = DocHost(
    id: string, segmentId: string, hostname: string, ip: string, mac: string, vendor: string, notes: string)

  datatype DocPort = DocPort(
    hostId: string, proto: string, port: int, state: string, service: string, version: string, notes: string)

  datatype Document = Document(segments: seq<Segment>, hosts: seq<DocHost>, ports: seq<DocPort>)

  datatype Syntax = Syntax(cidr: string -> bool, ip: string -> bool)

  type Ids = map<string, nat>

  // ---- segments ----

  /** `full` is the system import, which also applies the hidden and enabled flags outright. */
  function SegmentStep(db: Db, seg: Segment, syn: Syntax, full: bool): Db {
    if !syn.cidr(seg.cidr) then db
    else
      var db1 := UpsertAutoSubnet(db, seg.cidr, seg.name, "");
      var id := db1.subnets[seg.cidr].id;
      if full then EditSubnet(EditSubnet(db1, id, SetHidden(seg.hidden)), id, SetEnabled(seg.enabled)) else db1
  }

  function SegmentId(db: Db, ids: Ids, seg: Segment, syn: Syntax): Ids {
    if syn.cidr(seg.cidr) && seg.cidr in db.subnets then ids[seg.id := db.subnets[seg.cidr].id] else ids
  }

  function ImportSegments(db: Db, segs: seq<Segment>, syn: Syntax, full: bool): (Db, Ids) {
    if segs == [] then (db, map[])
    else
      var (d, ids) := ImportSegments(db, segs[..|segs| - 1], syn, full);
      var d' := SegmentStep(d, segs[|segs| - 1], syn, full);
      (d', SegmentId(d', ids, segs[|segs| - 1], syn))
  }

  method RunImportSegments(st: Store, segs: seq<Segment>, syn: Syntax, full: bool) returns (ids: Ids)
    modifies st
    ensures (st.Snapshot(), ids) == ImportSegments(old(st.Snapshot()), segs, syn, full)
  {
    ids := map[];
    ghost var start := st.Snapshot();
    for i := 0 to |segs|
      invariant (st.Snapshot(), ids) == ImportSegments(start, segs[..i], syn, full)
    {
      assert segs[..i + 1][..i] == segs[..i];
      var seg := segs[i];
      if !syn.cidr(seg.cidr) {
        continue;
      }
      var id, _ := st.UpsertAutoSubnet(seg.cidr, seg.name, "");
      if full {
        st.SetSubnetHidden(id, seg.hidden);
        st.SetSubnetEnabled(id, seg.enabled);
      }
      ids := ids[seg.id := id];
    }
    assert segs[..|segs|] == segs;
  }

  // ---- hosts ----

  predicate HostUsable(h: DocHost, segIds: Ids, syn: Syntax) {
    h.segmentId in segIds && syn.ip(h.ip)
  }

  function TargetHost(h: DocHost, segIds: Ids): HostKey
    requires h.segmentId in segIds
  {
    HostKey(segIds[h.segmentId], h.ip)
  }

  datatype HostImport = HostImport(db: Db, ids: Ids, added: nat)

  function HostStep(s: HostImport, h: DocHost, segIds: Ids, syn: Syntax): HostImport {
    if !HostUsable(h, segIds, syn) then s
    else
      var k := TargetHost(h, segIds);
      var db' := ImportHost(s.db, k.subnet, k.ip, h.mac, h.hostname, h.vendor, h.notes);
      if k !in db'.hosts then s
      else HostImport(db', s.ids[h.id := db'.hosts[k].id], s.added + if k in s.db.hosts then 0 else 1)
  }

  function ImportHosts(db: Db, hosts: seq<DocHost>, segIds: Ids, syn: Syntax): HostImport {
    if hosts == [] then HostImport(db, map[], 0)
    else HostStep(ImportHosts(db, hosts[..|hosts| - 1], segIds, syn), hosts[|hosts| - 1], segIds, syn)
  }

  ghost predicate SubnetIds(segIds: Ids, subnets: map<string, SubnetRow>) {
    forall s | s in segIds :: HasSubnet(subnets, segIds[s])
  }

  lemma {:induction false} HostsKeepSubnets(db: Db, hosts: seq<DocHost>, segIds: Ids, syn: Syntax)
    ensures ImportHosts(db, hosts, segIds, syn).db.subnets == db.subnets
    ensures ImportHosts(db, hosts, segIds, syn).db.ports == db.ports
    ensures ImportHosts(db, hosts, segIds, syn).db.rules == db.rules
  {
    if hosts != [] {
      HostsKeepSubnets(db, hosts[..|hosts| - 1], segIds, syn);
    }
  }

  /** The count of new hosts is the growth of the table, whatever the document repeats. */
  lemma {:induction false} HostsCounted(db: Db, hosts: seq<DocHost>, segIds: Ids, syn: Syntax)
    ensures ImportHosts(db, hosts, segIds, syn).added == |ImportHosts(db, hosts, segIds, syn).db.hosts| - |db.hosts|
  {
    if hosts != [] {
      HostsCounted(db, hosts[..|hosts| - 1], segIds, syn);
    }
  }

  method RunImportHosts(st: Store, hosts: seq<DocHost>, segIds: Ids, syn: Syntax) returns (ids: Ids, newHosts: nat)
    requires SubnetIds(segIds, st.subnets)
    modifies st
    ensures newHosts == |st.hosts| - |old(st.hosts)|
    ensures HostImport(st.Snapshot(), ids, newHosts) == ImportHosts(old(st.Snapshot()), hosts, segIds, syn)
  {
    ids, newHosts := map[], 0;
    ghost var start := st.Snapshot();
    for i := 0 to |hosts|
      invariant HostImport(st.Snapshot(), ids, newHosts) == ImportHosts(start, hosts[..i], segIds, syn)
    {
      assert hosts[..i + 1][..i] == hosts[..i];
      HostsKeepSubnets(start, hosts[..i], segIds, syn);
      var h := hosts[i];
      if !HostUsable(h, segIds, syn) {
        continue;
      }
      assert HasSubnet(st.subnets, segIds[h.segmentId]);
      var r := st.ImportHost(segIds[h.segmentId], h.ip, h.mac, h.hostname, h.vendor, h.notes);
      ids := ids[h.id := r.id];
      if r.isNew {
        newHosts := newHosts + 1;
      }
    }
    assert hosts[..|hosts|] == hosts;
    HostsCounted(start, hosts, segIds, syn);
  }

  // ---- ports ----

  predicate PortUsable(p: DocPort, hostIds: Ids) {
    p.hostId in hostIds && p.port > 0 && p.state == "open"
  }

  function TargetPort(p: DocPort, hostIds: Ids): PortKey
    requires p.hostId in hostIds
  {
    PortKey(hostIds[p.hostId], p.port, if p.proto == "" then "tcp" else p.proto)
  }

  datatype PortImport = PortImport(db: Db, added: nat)

  function PortStep(s: PortImport, p: DocPort, hostIds: Ids): PortImport {
    if !PortUsable(p, hostIds) then s
    else
      var k := TargetPort(p, hostIds);
      var db' := UpsertPort(s.db, k, p.service, p.notes, "", p.version);
      PortImport(db', s.added + if k in db'.ports && k !in s.db.ports then 1 else 0)
  }

  function ImportPorts(db: Db, ports: seq<DocPort>, hostIds: Ids): PortImport {
    if ports == [] then PortImport(db, 0)
    else PortStep(ImportPorts(db, ports[..|ports| - 1], hostIds), ports[|ports| - 1], hostIds)
  }

  /** The count of new ports is the growth of the table. */
  lemma {:induction false} PortsCounted(db: Db, ports: seq<DocPort>, hostIds: Ids)
    ensures ImportPorts(db, ports, hostIds).added == |ImportPorts(db, ports, hostIds).db.ports| - |db.ports|
    ensures ImportPorts(db, ports, hostIds).db.hosts == db.hosts
  {
    if ports != [] {
      PortsCounted(db, ports[..|ports| - 1], hostIds);
    }
  }

  method RunImportPorts(st: Store, ports: seq<DocPort>, hostIds: Ids) returns (newPorts: nat)
    modifies st
    ensures newPorts == |st.ports| - |old(st.ports)| && st.hosts == old(st.hosts)
    ensures PortImport(st.Snapshot(), newPorts) == ImportPorts(old(st.Snapshot()), ports, hostIds)
  {
    newPorts := 0;
    ghost var start := st.Snapshot();
    for i := 0 to |ports|
      invariant PortImport(st.Snapshot(), newPorts) == ImportPorts(start, ports[..i], hostIds)
    {
      assert ports[..i + 1][..i] == ports[..i];
      var p := ports[i];
      if !PortUsable(p, hostIds) {
        continue;
      }
      var k := TargetPort(p, hostIds);
      var isNew := st.UpsertPort(k.host, k.port, k.proto, p.service, p.notes, "", p.version);
      if isNew {
        newPorts := newPorts + 1;
      }
    }
    assert ports[..|ports|] == ports;
    PortsCounted(start, ports, hostIds);
  }

  // ---- a whole document ----

  datatype Imported = Imported(db: Db, segIds: Ids, hostIds: Ids, newHosts: nat, newPorts: nat)

  /** Segments, then hosts, then ports: both the network-map and the system import. */
  function ImportDocument(db: Db, doc: Document, syn: Syntax, full: bool): Imported {
    var (db1, segIds) := ImportSegments(db, doc.segments, syn, full);
    var h := ImportHosts(db1, doc.hosts, segIds, syn);
    var p := ImportPorts(h.db, doc.ports, h.ids);
    Imported(p.db, segIds, h.ids, h.added, p.added)
  }

  method RunImportDocument(st: Store, doc: Document, syn: Syntax, full: bool)
    returns (segIds: Ids, hostIds: Ids, newHosts: nat, newPorts: nat)
    modifies st
    ensures newHosts == |st.hosts| - |old(st.hosts)| && newPorts == |st.ports| - |old(st.ports)|
    ensures Imported(st.Snapshot(), segIds, hostIds, newHosts, newPorts)
         == ImportDocument(old(st.Snapshot()), doc, syn, full)
  {
    ghost var start := st.Snapshot();
    segIds := RunImportSegments(st, doc.segments, syn, full);
    SegmentIdsResolve(start, doc.segments, syn, full);
    hostIds, newHosts := RunImportHosts(st, doc.hosts, segIds, syn);
    HostsKeepSubnets(ImportSegments(start, doc.segments, syn, full).0, doc.hosts, segIds, syn);
    newPorts := RunImportPorts(st, doc.ports, hostIds);
  }

  /** A segment step adds at most one subnet and renumbers none. */
  lemma SegmentStepKeepsIds(db: Db, seg: Segment, syn: Syntax, full: bool)
    ensures var db' := SegmentStep(db, seg, syn, full);
            && db' == db.(subnets := db'.subnets, nextSubnet := db'.nextSubnet)
            && (syn.cidr(seg.cidr) ==> seg.cidr in db'.subnets)
            && (forall c | c in db.subnets :: c in db'.subnets && db'.subnets[c].id == db.subnets[c].id)
  {
  }

  /** Every id a segment import hands on belongs to a stored subnet. */
  lemma {:induction false} SegmentIdsResolve(db: Db, segs: seq<Segment>, syn: Syntax, full: bool)
    ensures var (db', ids) := ImportSegments(db, segs, syn, full);
            SubnetIds(ids, db'.subnets) && db' == db.(subnets := db'.subnets, nextSubnet := db'.nextSubnet)
  {
    hide SegmentStep;
    if segs != [] {
      SegmentIdsResolve(db, segs[..|segs| - 1], syn, full);
      var (d, ids) := ImportSegments(db, segs[..|segs| - 1], syn, full);
      var seg := segs[|segs| - 1];
      var d' := SegmentStep(d, seg, syn, full);
      SegmentStepKeepsIds(d, seg, syn, full);
      forall s | s in ids ensures HasSubnet(d'.subnets, ids[s]) {
        var c :| c in d.subnets && d.subnets[c].id == ids[s];
        assert d'.subnets[c].id == ids[s];
      }
    }
  }
}
