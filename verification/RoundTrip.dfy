/** Export a store, import the document into one without subnets, hosts or ports: the two
    inventories are isomorphic, up to what a document cannot carry. */
module RoundTrip {
  import opened Tables
  import opened Imports
  import opened ImportIdempotence
  import opened Listings
  import opened Runs
  import opened Stores
  import opened Text

  /** Risk findings are appended to the notes, because the document has no field of their own. */
  function ExportNotes(notes: string, reasons: seq<string>): string {
    if reasons == [] then notes
    else
      var findings := "Flagged: " + Join(reasons, "; ");
      if notes == "" then findings else notes + "\n\n" + findings
  }

  ghost predicate Occurs(part: string, whole: string) {
    exists lead, rest :: whole == lead + part + rest
  }

  /** Main: the user's notes come first and are kept, unchanged if there are no findings, and every finding is
      in what follows them. */
  lemma {:induction false} NotesKept(notes: string, reasons: seq<string>)
    ensures notes <= ExportNotes(notes, reasons)
    ensures reasons == [] ==> ExportNotes(notes, reasons) == notes
    ensures reasons != [] && notes != "" ==> ExportNotes(notes, reasons) == notes + "\n\n" + ExportNotes("", reasons)
    ensures |reasons| == 1 ==> ExportNotes("", reasons) == "Flagged: " + reasons[0]
    ensures |reasons| > 1 ==>
              ExportNotes("", reasons) == "Flagged: " + reasons[0] + "; " + ExportNotes("", reasons[1..])[9..]
    ensures forall r | r in reasons :: Occurs(r, ExportNotes(notes, reasons)[|notes|..])
  {
    if reasons != [] {
      var tail := ExportNotes(notes, reasons)[|notes|..];
      var lead := if notes == "" then "Flagged: " else "\n\n" + "Flagged: ";
      assert tail == lead + Join(reasons, "; ");
      forall r | r in reasons ensures Occurs(r, tail) {
        JoinHolds(reasons, r);
        OccursLater(r, Join(reasons, "; "), lead);
      }
    }
  }

  lemma OccursLater(part: string, whole: string, lead: string)
    requires Occurs(part, whole)
    ensures Occurs(part, lead + whole)
  {
    var a, b :| whole == a + part + b;
    assert lead + whole == (lead + a) + part + b;
  }

  lemma {:induction false} JoinHolds(reasons: seq<string>, r: string)
    requires r in reasons
    ensures Occurs(r, Join(reasons, "; "))
  {
    if r == reasons[0] {
      var rest := if |reasons| == 1 then "" else "; " + Join(reasons[1..], "; ");
      assert Join(reasons, "; ") == "" + r + rest;
    } else {
      JoinHolds(reasons[1..], r);
      OccursLater(r, Join(reasons[1..], "; "), reasons[0] + "; ");
      assert Join(reasons, "; ") == reasons[0] + "; " + Join(reasons[1..], "; ");
    }
  }

  function ExportSegment(c: string, row: SubnetRow): Segment {
    Segment(SegmentExportId(row.id), row.name, c, row.hidden, row.enabled)
  }

  function ExportHost(k: HostKey, h: HostRow, reasons: seq<string>): DocHost {
    DocHost(HostExportId(h.id), SegmentExportId(k.subnet), h.hostname, k.ip, h.mac, h.vendor,
            ExportNotes(h.notes, reasons))
  }

  function ExportPort(k: PortKey, p: PortRow): DocPort {
    DocPort(HostExportId(k.host), k.proto, k.port, if p.open then "open" else "closed", p.service,
            if p.version == "" then p.product else p.version, p.banner)
  }

  /** The three SELECTs' answers; nothing below depends on their order. */
  datatype Order = Order(subnets: seq<string>, hosts: seq<HostKey>, ports: seq<PortKey>)

  ghost predicate Covers(o: Order, db: Db) {
    && Lists(o.subnets, db.subnets.Keys)
    && Lists(o.hosts, db.hosts.Keys)
    && Lists(o.ports, db.ports.Keys)
  }

  type Findings = HostKey -> seq<string>

  ghost function ExportSegments(db: Db, order: seq<string>): seq<Segment>
    requires forall c | c in order :: c in db.subnets
  {
    seq(|order|, i requires 0 <= i < |order| => ExportSegment(order[i], db.subnets[order[i]]))
  }

  ghost function ExportHosts(db: Db, order: seq<HostKey>, reasons: Findings): seq<DocHost>
    requires forall k | k in order :: k in db.hosts
  {
    seq(|order|, i requires 0 <= i < |order| => ExportHost(order[i], db.hosts[order[i]], reasons(order[i])))
  }

  ghost function ExportPorts(db: Db, order: seq<PortKey>): seq<DocPort>
    requires forall k | k in order :: k in db.ports
  {
    seq(|order|, i requires 0 <= i < |order| => ExportPort(order[i], db.ports[order[i]]))
  }

  ghost function ExportDocument(db: Db, o: Order, reasons: Findings): Document
    requires Covers(o, db)
  {
    Document(ExportSegments(db, o.subnets), ExportHosts(db, o.hosts, reasons), ExportPorts(db, o.ports))
  }

  /** `ListPorts` and its loop for one host, appended to what is already there. */
  method RunExportPorts(st: Store, host: nat, done: seq<DocPort>, ghost listed: seq<PortKey>)
    returns (ports: seq<DocPort>, ghost mine: seq<PortKey>)
    requires forall p | p in listed :: p in st.ports
    requires done == ExportPorts(st.Snapshot(), listed)
    ensures Lists(mine, set p | p in st.ports && p.host == host)
    ensures forall p | p in listed + mine :: p in st.ports
    ensures ports == ExportPorts(st.Snapshot(), listed + mine)
  {
    var rows := Enumerate(set p | p in st.ports && p.host == host);
    mine, ports := rows, done;
    assert forall p | p in rows :: p in st.ports;
    assert listed + rows[..0] == listed;
    for j := 0 to |rows|
      invariant forall p | p in listed + rows[..j] :: p in st.ports
      invariant ports == ExportPorts(st.Snapshot(), listed + rows[..j])
    {
      assert rows[j] in rows;
      assert listed + rows[..j + 1] == listed + rows[..j] + [rows[j]];
      ports := ports + [ExportPort(rows[j], st.ports[rows[j]])];
    }
    assert rows[..|rows|] == rows;
  }

  method RunExportSegments(st: Store) returns (segments: seq<Segment>, ghost order: seq<string>)
    ensures Lists(order, st.subnets.Keys) && segments == ExportSegments(st.Snapshot(), order)
  {
    var subnets := Enumerate(st.subnets.Keys);
    segments, order := [], subnets;
    for i := 0 to |subnets|
      invariant segments == ExportSegments(st.Snapshot(), subnets[..i])
    {
      assert subnets[i] in subnets;
      segments := segments + [ExportSegment(subnets[i], st.subnets[subnets[i]])];
    }
    assert subnets[..|subnets|] == subnets;
  }

  /** Every row has its entry, named after its id; a port that is not open is marked as closed, and its entry's
      version is the product where no version is known. */
  ghost predicate EveryRowExported(db: Db, doc: Document, reasons: Findings) {
    && (forall c | c in db.subnets ::
          var r := db.subnets[c];
          Segment("seg-" + Decimal(r.id), r.name, c, r.hidden, r.enabled) in doc.segments)
    && (forall k | k in db.hosts ::
          var h := db.hosts[k];
          DocHost("host-" + Decimal(h.id), "seg-" + Decimal(k.subnet), h.hostname, k.ip, h.mac, h.vendor,
                  ExportNotes(h.notes, reasons(k))) in doc.hosts)
    && (forall k | k in db.ports ::
          var p := db.ports[k];
          DocPort("host-" + Decimal(k.host), k.proto, k.port, if p.open then "open" else "closed", p.service,
                  if p.version != "" then p.version else p.product, p.banner) in doc.ports)
  }

  lemma RowsExported(db: Db, o: Order, reasons: Findings)
    requires Covers(o, db)
    ensures EveryRowExported(db, ExportDocument(db, o, reasons), reasons)
  {
    hide ExportNotes, Decimal;
    var doc := ExportDocument(db, o, reasons);
    forall c | c in db.subnets ensures ExportSegment(c, db.subnets[c]) in doc.segments {
      var i :| 0 <= i < |o.subnets| && o.subnets[i] == c;
      assert doc.segments[i] == ExportSegment(c, db.subnets[c]);
    }
    forall k | k in db.hosts ensures ExportHost(k, db.hosts[k], reasons(k)) in doc.hosts {
      var i :| 0 <= i < |o.hosts| && o.hosts[i] == k;
      assert doc.hosts[i] == ExportHost(k, db.hosts[k], reasons(k));
    }
    forall k | k in db.ports ensures ExportPort(k, db.ports[k]) in doc.ports {
      var i :| 0 <= i < |o.ports| && o.ports[i] == k;
      assert doc.ports[i] == ExportPort(k, db.ports[k]);
    }
  }

  method RunExport(st: Store, reasons: Findings) returns (doc: Document, ghost o: Order)
    requires Sound(st.Snapshot())
    ensures Covers(o, st.Snapshot()) && doc == ExportDocument(st.Snapshot(), o, reasons)
    ensures |doc.segments| == |st.subnets| && |doc.hosts| == |st.hosts| && |doc.ports| == |st.ports|
    ensures EveryRowExported(st.Snapshot(), doc, reasons)
  {
    hide Sound, EveryRowExported;
    var segments, so := RunExportSegments(st);
    var hosts, ports := [], [];
    var keys := Enumerate(st.hosts.Keys);
    ghost var listed: seq<PortKey> := [];
    for i := 0 to |keys|
      invariant hosts == ExportHosts(st.Snapshot(), keys[..i], reasons)
      invariant Lists(listed, PortsOfSome(st.Snapshot(), keys[..i]))
      invariant ports == ExportPorts(st.Snapshot(), listed)
    {
      var k := keys[i];
      assert k in keys;
      hosts := hosts + [ExportHost(k, st.hosts[k], reasons(k))];
      ghost var mine;
      ports, mine := RunExportPorts(st, st.hosts[k].id, ports, listed);
      NextHostPorts(st.Snapshot(), keys, i, listed, mine);
      listed := listed + mine;
    }
    assert keys[..|keys|] == keys;
    AllPortsListed(st.Snapshot(), keys);
    doc, o := Document(segments, hosts, ports), Order(so, keys, listed);
    RowsExported(st.Snapshot(), o, reasons);
    ListsSize(so, st.subnets.Keys);
    ListsSize(keys, st.hosts.Keys);
    ListsSize(listed, st.ports.Keys);
  }

  ghost function PortsOfSome(db: Db, keys: seq<HostKey>): set<PortKey> {
    set p | p in db.ports && OfSome(db.hosts, keys, p.host)
  }

  lemma AllPortsListed(db: Db, keys: seq<HostKey>)
    requires Sound(db) && Lists(keys, db.hosts.Keys)
    ensures PortsOfSome(db, keys) == db.ports.Keys
  {
    forall p | p in db.ports ensures OfSome(db.hosts, keys, p.host) {
      assert HasHost(db.hosts, p.host);
      var k :| k in db.hosts && db.hosts[k].id == p.host;
      assert k in keys;
    }
  }

  ghost predicate OfSome(hosts: map<HostKey, HostRow>, keys: seq<HostKey>, id: nat) {
    exists k :: k in keys && k in hosts && hosts[k].id == id
  }

  lemma NextHostPorts(db: Db, keys: seq<HostKey>, i: nat, before: seq<PortKey>, mine: seq<PortKey>)
    requires Sound(db) && Lists(keys, db.hosts.Keys) && i < |keys|
    requires Lists(before, PortsOfSome(db, keys[..i]))
    requires keys[i] in db.hosts && Lists(mine, set p | p in db.ports && p.host == db.hosts[keys[i]].id)
    ensures Lists(before + mine, PortsOfSome(db, keys[..i + 1]))
  {
    var k := keys[i];
    var id := db.hosts[k].id;
    var next := set p | p in db.ports && p.host == id;
    assert keys[..i + 1] == keys[..i] + [k];
    assert forall l | l in keys[..i] :: l != k;
    assert !OfSome(db.hosts, keys[..i], id);
    forall h ensures OfSome(db.hosts, keys[..i + 1], h) <==> OfSome(db.hosts, keys[..i], h) || h == id {
      if OfSome(db.hosts, keys[..i], h) {
        var l :| l in keys[..i] && l in db.hosts && db.hosts[l].id == h;
        assert l in keys[..i + 1];
      }
      assert k in keys[..i + 1];
    }
    assert PortsOfSome(db, keys[..i + 1]) == PortsOfSome(db, keys[..i]) + next;
    ListsConcat(before, mine, PortsOfSome(db, keys[..i]), next);
  }

  // ---- importing the document into an empty inventory ----

  ghost predicate Injective(ids: Ids) {
    forall s, t | s in ids && t in ids && ids[s] == ids[t] :: s == t
  }

  /** Every parsable subnet of `order` came back under a new id, with its name and flags, and nothing else. */
  ghost predicate SubnetsRestored(db: Db, db': Db, ids: Ids, order: seq<string>, syn: Syntax) {
    && (forall c :: c in db'.subnets <==> c in order && syn.cidr(c))
    && (forall c | c in db'.subnets :: SubnetRestored(db, db', ids, c))
    && (forall s | s in ids :: IsReturnedSegment(db, db', s))
  }

  ghost predicate IsReturnedSegment(db: Db, db': Db, s: string) {
    exists c :: c in db'.subnets && c in db.subnets && s == SegmentExportId(db.subnets[c].id)
  }

  ghost predicate SubnetRestored(db: Db, db': Db, ids: Ids, c: string)
    requires c in db'.subnets
  {
    && c in db.subnets
    && var row, row' := db.subnets[c], db'.subnets[c];
      && row' == SubnetRow(row'.id, row.name, Auto, "", row.enabled, row.hidden)
      && SegmentExportId(row.id) in ids && ids[SegmentExportId(row.id)] == row'.id
  }

  lemma NewSegment(d: Db, c: string, row: SubnetRow, syn: Syntax)
    requires Sound(d) && c !in d.subnets && syn.cidr(c)
    ensures SegmentStep(d, ExportSegment(c, row), syn, true) ==
            d.(subnets := d.subnets[c := SubnetRow(d.nextSubnet, row.name, Auto, "", row.enabled, row.hidden)],
               nextSubnet := d.nextSubnet + 1)
  {
    hide SegmentStep, Sound;
    SegmentStepIsPatch(d, ExportSegment(c, row), syn, true);
  }

  lemma {:induction false} SubnetsComeBack(db: Db, target: Db, order: seq<string>, syn: Syntax)
    requires Sound(target) && target.subnets == map[]
    requires UniqueSubnets(db.subnets, db.nextSubnet)
    requires Distinct(order) && forall c | c in order :: c in db.subnets
    ensures var (db', ids) := ImportSegments(target, ExportSegments(db, order), syn, true);
            Sound(db') && SubnetsRestored(db, db', ids, order, syn)
  {
    hide Sound, SegmentStep, UniqueSubnets, SubnetRestored, IsReturnedSegment;
    var segs := ExportSegments(db, order);
    FirstSegments(target, segs, syn, true);
    if order != [] {
      var n := |order| - 1;
      var c := order[n];
      var init := order[..n];
      assert order == init + [c] && c in order;
      assert forall x | x in init :: x in order;
      assert segs[..n] == ExportSegments(db, init);
      SubnetsComeBack(db, target, init, syn);
      var (d, ids) := ImportSegments(target, segs[..n], syn, true);
      assert segs[n] == ExportSegment(c, db.subnets[c]);
      SegmentBack(db, d, ids, init, c, syn);
    }
  }

  lemma SegmentBack(db: Db, d: Db, ids: Ids, init: seq<string>, c: string, syn: Syntax)
    requires Sound(d) && UniqueSubnets(db.subnets, db.nextSubnet)
    requires c !in init && c in db.subnets && forall x | x in init :: x in db.subnets
    requires SubnetsRestored(db, d, ids, init, syn)
    ensures var seg := ExportSegment(c, db.subnets[c]);
            var d' := SegmentStep(d, seg, syn, true);
            SubnetsRestored(db, d', SegmentId(d', ids, seg, syn), init + [c], syn)
  {
    hide Sound, SegmentStep, UniqueSubnets, SubnetRestored, IsReturnedSegment;
    var seg := ExportSegment(c, db.subnets[c]);
    if syn.cidr(c) {
      NewSegment(d, c, db.subnets[c], syn);
      SubnetAdded(db, d, ids, init, c, syn);
    } else {
      SegmentStepIsPatch(d, seg, syn, true);
      assert forall x :: x in init + [c] <==> x in init || x == c;
    }
  }

  lemma SubnetAdded(db: Db, d: Db, ids: Ids, init: seq<string>, c: string, syn: Syntax)
    requires UniqueSubnets(db.subnets, db.nextSubnet)
    requires c !in init && c in db.subnets && syn.cidr(c) && forall x | x in init :: x in db.subnets
    requires SubnetsRestored(db, d, ids, init, syn)
    ensures var row := db.subnets[c];
            var row' := SubnetRow(d.nextSubnet, row.name, Auto, "", row.enabled, row.hidden);
            var d' := d.(subnets := d.subnets[c := row'],
                         nextSubnet := d.nextSubnet + 1);
            SubnetsRestored(db, d', ids[SegmentExportId(row.id) := d.nextSubnet], init + [c], syn)
  {
    hide UniqueSubnets;
    var row := db.subnets[c];
    var d' := d.(subnets := d.subnets[c := SubnetRow(d.nextSubnet, row.name, Auto, "", row.enabled, row.hidden)],
                 nextSubnet := d.nextSubnet + 1);
    var ids' := ids[SegmentExportId(row.id) := d.nextSubnet];
    assert forall x :: x in init + [c] <==> x in init || x == c;
    forall x | x in d'.subnets ensures SubnetRestored(db, d', ids', x) {
      if x != c {
        assert SubnetRestored(db, d, ids, x);
        DistinctSegments(db, x, c);
      }
    }
    forall s | s in ids' ensures IsReturnedSegment(db, d', s) {
      if s in ids {
        assert IsReturnedSegment(db, d, s);
        var x :| x in d.subnets && x in db.subnets && s == SegmentExportId(db.subnets[x].id);
        assert x in d'.subnets;
      } else {
        assert c in d'.subnets;
      }
    }
  }

  lemma DistinctSegments(db: Db, x: string, c: string)
    requires UniqueSubnets(db.subnets, db.nextSubnet) && x in db.subnets && c in db.subnets && x != c
    ensures SegmentExportId(db.subnets[x].id) != SegmentExportId(db.subnets[c].id)
  {
    if SegmentExportId(db.subnets[x].id) == SegmentExportId(db.subnets[c].id) {
      SegmentExportIdInjective(db.subnets[x].id, db.subnets[c].id);
    }
  }

  ghost predicate IdOf(db: Db, db': Db, ids: Ids, s: string, c: string)
    requires s in ids
  {
    c in db'.subnets && c in db.subnets && s == SegmentExportId(db.subnets[c].id) && ids[s] == db'.subnets[c].id
  }

  lemma RestoredIdsInjective(db: Db, db': Db, ids: Ids, order: seq<string>, syn: Syntax)
    requires SubnetsRestored(db, db', ids, order, syn) && UniqueSubnets(db'.subnets, db'.nextSubnet)
    ensures Injective(ids) && SubnetIds(ids, db'.subnets)
  {
    forall s | s in ids ensures exists c :: IdOf(db, db', ids, s, c) {
      assert IsReturnedSegment(db, db', s);
      var c :| c in db'.subnets && c in db.subnets && s == SegmentExportId(db.subnets[c].id);
      assert SubnetRestored(db, db', ids, c);
      assert IdOf(db, db', ids, s, c);
    }
    forall s, t | s in ids && t in ids && ids[s] == ids[t] ensures s == t {
      var c :| IdOf(db, db', ids, s, c);
      var d :| IdOf(db, db', ids, t, d);
      assert c == d;
    }
  }

  // ---- hosts ----

  /** The host's subnet came back and its address parses. */
  predicate Returns(k: HostKey, segIds: Ids, syn: Syntax) {
    SegmentExportId(k.subnet) in segIds && syn.ip(k.ip)
  }

  function NewKey(k: HostKey, segIds: Ids): HostKey
    requires SegmentExportId(k.subnet) in segIds
  {
    HostKey(segIds[SegmentExportId(k.subnet)], k.ip)
  }

  lemma NewKeyInjective(k: HostKey, l: HostKey, segIds: Ids)
    requires Injective(segIds) && SegmentExportId(k.subnet) in segIds && SegmentExportId(l.subnet) in segIds
    requires NewKey(k, segIds) == NewKey(l, segIds)
    ensures k == l
  {
    SegmentExportIdInjective(k.subnet, l.subnet);
  }

  ghost predicate HostRestored(db: Db, db': Db, segIds: Ids, hostIds: Ids, reasons: Findings, k: HostKey)
    requires k in db.hosts && SegmentExportId(k.subnet) in segIds
  {
    var n, h := NewKey(k, segIds), db.hosts[k];
    && n in db'.hosts
    && db'.hosts[n] == HostRow(db'.hosts[n].id, h.mac, h.hostname, h.vendor, Unknown, Auto,
                               ExportNotes(h.notes, reasons(k)), 0, false, false)
    && HostExportId(h.id) in hostIds && hostIds[HostExportId(h.id)] == db'.hosts[n].id
  }

  ghost predicate IsReturned(db: Db, segIds: Ids, order: seq<HostKey>, syn: Syntax, n: HostKey) {
    exists k :: k in order && k in db.hosts && Returns(k, segIds, syn) && n == NewKey(k, segIds)
  }

  ghost predicate IsReturnedId(db: Db, segIds: Ids, order: seq<HostKey>, syn: Syntax, i: string) {
    exists k :: k in order && k in db.hosts && Returns(k, segIds, syn) && i == HostExportId(db.hosts[k].id)
  }

  ghost predicate HostsRestored(
    db: Db, db': Db, segIds: Ids, hostIds: Ids, order: seq<HostKey>, syn: Syntax, reasons: Findings)
  {
    && (forall k | k in order && k in db.hosts && Returns(k, segIds, syn) ::
          HostRestored(db, db', segIds, hostIds, reasons, k))
    && (forall n | n in db'.hosts :: IsReturned(db, segIds, order, syn, n))
    && (forall i | i in hostIds :: IsReturnedId(db, segIds, order, syn, i))
  }

  lemma ReturnedGrows(db: Db, segIds: Ids, init: seq<HostKey>, k: HostKey, syn: Syntax)
    ensures forall n :: IsReturned(db, segIds, init, syn, n) ==> IsReturned(db, segIds, init + [k], syn, n)
    ensures forall i :: IsReturnedId(db, segIds, init, syn, i) ==> IsReturnedId(db, segIds, init + [k], syn, i)
  {
    assert forall l | l in init :: l in init + [k];
  }

  /** A host not restored yet has no row under its new key. */
  lemma NotThereYet(db: Db, s: HostImport, segIds: Ids, init: seq<HostKey>, k: HostKey, syn: Syntax, reasons: Findings)
    requires HostsRestored(db, s.db, segIds, s.ids, init, syn, reasons)
    requires Injective(segIds) && k !in init && SegmentExportId(k.subnet) in segIds
    ensures NewKey(k, segIds) !in s.db.hosts
  {
    hide HostRestored;
    var n := NewKey(k, segIds);
    if n in s.db.hosts {
      assert IsReturned(db, segIds, init, syn, n);
      var l :| l in init && l in db.hosts && Returns(l, segIds, syn) && n == NewKey(l, segIds);
      NewKeyInjective(k, l, segIds);
    }
  }

  lemma HostAdded(db: Db, s: HostImport, segIds: Ids, init: seq<HostKey>, k: HostKey, syn: Syntax, reasons: Findings)
    requires k !in init && k in db.hosts && Injective(segIds) && UniqueHosts(db.hosts, db.nextHost)
    requires SubnetIds(segIds, s.db.subnets)
    requires HostsRestored(db, s.db, segIds, s.ids, init, syn, reasons)
    ensures var s' := HostStep(s, ExportHost(k, db.hosts[k], reasons(k)), segIds, syn);
            HostsRestored(db, s'.db, segIds, s'.ids, init + [k], syn, reasons)
  {
    hide UniqueHosts, IsReturned, IsReturnedId, SubnetIds;
    var row := ExportHost(k, db.hosts[k], reasons(k));
    var s' := HostStep(s, row, segIds, syn);
    assert forall x :: x in init + [k] <==> x in init || x == k;
    ReturnedGrows(db, segIds, init, k, syn);
    if Returns(k, segIds, syn) {
      var n := NewKey(k, segIds);
      NotThereYet(db, s, segIds, init, k, syn, reasons);
      HostInserted(s, row, segIds, syn);
      forall l | l in init + [k] && l in db.hosts && Returns(l, segIds, syn)
        ensures HostRestored(db, s'.db, segIds, s'.ids, reasons, l)
      {
        if l != k {
          assert HostRestored(db, s.db, segIds, s.ids, reasons, l);
          DistinctReturns(db, k, l, segIds);
        }
      }
      ReturnsItself(db, segIds, init, k, syn);
    }
  }

  lemma HostInserted(s: HostImport, h: DocHost, segIds: Ids, syn: Syntax)
    requires HostUsable(h, segIds, syn) && TargetHost(h, segIds) !in s.db.hosts && SubnetIds(segIds, s.db.subnets)
    ensures
      var row := HostRow(s.db.nextHost, h.mac, h.hostname, h.vendor, Unknown, Auto, h.notes, 0, false, false);
      var s' := HostStep(s, h, segIds, syn);
      s'.db.hosts == s.db.hosts[TargetHost(h, segIds) := row] && s'.ids == s.ids[h.id := row.id]
  {
    assert HasSubnet(s.db.subnets, segIds[h.segmentId]);
  }

  lemma ReturnsItself(db: Db, segIds: Ids, init: seq<HostKey>, k: HostKey, syn: Syntax)
    requires k in db.hosts && Returns(k, segIds, syn)
    ensures IsReturned(db, segIds, init + [k], syn, NewKey(k, segIds))
    ensures IsReturnedId(db, segIds, init + [k], syn, HostExportId(db.hosts[k].id))
  {
    assert (init + [k])[|init|] == k;
  }

  lemma DistinctReturns(db: Db, k: HostKey, l: HostKey, segIds: Ids)
    requires UniqueHosts(db.hosts, db.nextHost) && Injective(segIds)
    requires k in db.hosts && l in db.hosts && k != l
    requires SegmentExportId(k.subnet) in segIds && SegmentExportId(l.subnet) in segIds
    ensures NewKey(k, segIds) != NewKey(l, segIds)
    ensures HostExportId(db.hosts[k].id) != HostExportId(db.hosts[l].id)
  {
    if NewKey(k, segIds) == NewKey(l, segIds) { NewKeyInjective(k, l, segIds); }
    if HostExportId(db.hosts[k].id) == HostExportId(db.hosts[l].id) {
      HostExportIdInjective(db.hosts[k].id, db.hosts[l].id);
    }
  }

  lemma {:induction false} HostsComeBack(
    db: Db, target: Db, segIds: Ids, order: seq<HostKey>, syn: Syntax, reasons: Findings)
    requires target.hosts == map[] && SubnetIds(segIds, target.subnets)
    requires UniqueHosts(db.hosts, db.nextHost) && Injective(segIds)
    requires Distinct(order) && forall k | k in order :: k in db.hosts
    ensures var s := ImportHosts(target, ExportHosts(db, order, reasons), segIds, syn);
            HostsRestored(db, s.db, segIds, s.ids, order, syn, reasons)
  {
    if order != [] {
      hide UniqueHosts, HostStep, HostsRestored, ImportHosts, ExportHosts, ExportHost, Injective, SubnetIds;
      var n := |order| - 1;
      var init, k := order[..n], order[n];
      assert order == init + [k] && k in order && k !in init;
      assert forall x | x in init :: x in order;
      HostsComeBack(db, target, segIds, init, syn, reasons);
      HostsKeepSubnets(target, ExportHosts(db, init, reasons), segIds, syn);
      HostAdded(db, ImportHosts(target, ExportHosts(db, init, reasons), segIds, syn), segIds, init, k, syn, reasons);
      LastHost(db, target, segIds, init, k, syn, reasons);
    }
  }

  lemma LastHost(db: Db, target: Db, segIds: Ids, init: seq<HostKey>, k: HostKey, syn: Syntax, reasons: Findings)
    requires forall x | x in init + [k] :: x in db.hosts
    ensures ImportHosts(target, ExportHosts(db, init + [k], reasons), segIds, syn)
         == HostStep(ImportHosts(target, ExportHosts(db, init, reasons), segIds, syn),
                     ExportHost(k, db.hosts[k], reasons(k)), segIds, syn)
  {
    hide HostStep, ExportHost;
    var rows := ExportHosts(db, init + [k], reasons);
    assert rows == ExportHosts(db, init, reasons) + [ExportHost(k, db.hosts[k], reasons(k))];
    assert rows[..|rows| - 1] == ExportHosts(db, init, reasons);
  }

  ghost predicate HostIdOf(db: Db, db': Db, segIds: Ids, hostIds: Ids, i: string, k: HostKey)
    requires i in hostIds
  {
    && k in db.hosts && SegmentExportId(k.subnet) in segIds && i == HostExportId(db.hosts[k].id)
    && NewKey(k, segIds) in db'.hosts && hostIds[i] == db'.hosts[NewKey(k, segIds)].id
  }

  lemma RestoredHostIds(
    db: Db, db': Db, segIds: Ids, hostIds: Ids, order: seq<HostKey>, syn: Syntax, reasons: Findings)
    requires HostsRestored(db, db', segIds, hostIds, order, syn, reasons)
    requires UniqueHosts(db'.hosts, db'.nextHost) && Injective(segIds)
    ensures Injective(hostIds) && HostIds(hostIds, db'.hosts)
  {
    forall i | i in hostIds ensures exists k :: HostIdOf(db, db', segIds, hostIds, i, k) {
      assert IsReturnedId(db, segIds, order, syn, i);
      var k :| k in order && k in db.hosts && Returns(k, segIds, syn) && i == HostExportId(db.hosts[k].id);
      assert HostRestored(db, db', segIds, hostIds, reasons, k);
      assert HostIdOf(db, db', segIds, hostIds, i, k);
    }
    forall i, j | i in hostIds && j in hostIds && hostIds[i] == hostIds[j] ensures i == j {
      var k :| HostIdOf(db, db', segIds, hostIds, i, k);
      var l :| HostIdOf(db, db', segIds, hostIds, j, l);
      NewKeyInjective(k, l, segIds);
    }
  }

  // ---- ports ----

  /** Open, with a positive number, on a host that came back. */
  predicate PortReturns(k: PortKey, p: PortRow, hostIds: Ids) {
    HostExportId(k.host) in hostIds && k.port > 0 && p.open
  }

  function NewPort(k: PortKey, hostIds: Ids): PortKey
    requires HostExportId(k.host) in hostIds
  {
    PortKey(hostIds[HostExportId(k.host)], k.port, k.proto)
  }

  ghost predicate IsReturnedPort(db: Db, hostIds: Ids, order: seq<PortKey>, n: PortKey) {
    exists k :: k in order && k in db.ports && PortReturns(k, db.ports[k], hostIds) && n == NewPort(k, hostIds)
  }

  ghost predicate PortRestored(db: Db, db': Db, hostIds: Ids, k: PortKey)
    requires k in db.ports && HostExportId(k.host) in hostIds
  {
    var p := db.ports[k];
    && NewPort(k, hostIds) in db'.ports
    && db'.ports[NewPort(k, hostIds)] ==
        PortRow(true, p.service, p.banner, "", if p.version == "" then p.product else p.version)
  }

  ghost predicate PortsRestored(db: Db, db': Db, hostIds: Ids, order: seq<PortKey>) {
    && (forall k | k in order && k in db.ports && PortReturns(k, db.ports[k], hostIds) ::
          PortRestored(db, db', hostIds, k))
    && (forall n | n in db'.ports :: IsReturnedPort(db, hostIds, order, n))
  }

  lemma NewPortInjective(k: PortKey, l: PortKey, hostIds: Ids)
    requires Injective(hostIds) && HostExportId(k.host) in hostIds && HostExportId(l.host) in hostIds
    requires NewPort(k, hostIds) == NewPort(l, hostIds)
    ensures k == l
  {
    HostExportIdInjective(k.host, l.host);
  }

  lemma PortNotThereYet(db: Db, d: Db, hostIds: Ids, init: seq<PortKey>, k: PortKey)
    requires PortsRestored(db, d, hostIds, init) && Injective(hostIds)
    requires k !in init && HostExportId(k.host) in hostIds
    ensures NewPort(k, hostIds) !in d.ports
  {
    hide PortRestored;
    var n := NewPort(k, hostIds);
    if n in d.ports {
      assert IsReturnedPort(db, hostIds, init, n);
      var l :| l in init && l in db.ports && PortReturns(l, db.ports[l], hostIds) && n == NewPort(l, hostIds);
      NewPortInjective(k, l, hostIds);
    }
  }

  lemma PortInserted(s: PortImport, p: DocPort, hostIds: Ids)
    requires PortUsable(p, hostIds) && TargetPort(p, hostIds) !in s.db.ports && HostIds(hostIds, s.db.hosts)
    ensures PortStep(s, p, hostIds).db.ports ==
            s.db.ports[TargetPort(p, hostIds) := PortRow(true, p.service, p.notes, "", p.version)]
  {
    assert HasHost(s.db.hosts, hostIds[p.hostId]);
  }

  lemma PortReturnedGrows(db: Db, hostIds: Ids, init: seq<PortKey>, k: PortKey)
    ensures forall n :: IsReturnedPort(db, hostIds, init, n) ==> IsReturnedPort(db, hostIds, init + [k], n)
    ensures k in db.ports && PortReturns(k, db.ports[k], hostIds) ==>
            IsReturnedPort(db, hostIds, init + [k], NewPort(k, hostIds))
  {
    assert forall l | l in init :: l in init + [k];
    assert (init + [k])[|init|] == k;
  }

  lemma PortAdded(db: Db, s: PortImport, hostIds: Ids, init: seq<PortKey>, k: PortKey)
    requires k !in init && k in db.ports && k.proto != "" && Injective(hostIds) && HostIds(hostIds, s.db.hosts)
    requires PortsRestored(db, s.db, hostIds, init)
    ensures PortsRestored(db, PortStep(s, ExportPort(k, db.ports[k]), hostIds).db, hostIds, init + [k])
  {
    hide IsReturnedPort, HostIds;
    var row := ExportPort(k, db.ports[k]);
    var s' := PortStep(s, row, hostIds);
    assert forall x :: x in init + [k] <==> x in init || x == k;
    PortReturnedGrows(db, hostIds, init, k);
    if PortReturns(k, db.ports[k], hostIds) {
      PortNotThereYet(db, s.db, hostIds, init, k);
      PortInserted(s, row, hostIds);
      forall l | l in init + [k] && l in db.ports && PortReturns(l, db.ports[l], hostIds)
        ensures PortRestored(db, s'.db, hostIds, l)
      {
        if l != k {
          assert PortRestored(db, s.db, hostIds, l);
          if NewPort(l, hostIds) == NewPort(k, hostIds) { NewPortInjective(k, l, hostIds); }
        }
      }
    }
  }

  lemma {:induction false} PortImportKeepsHosts(target: Db, rows: seq<DocPort>, hostIds: Ids)
    ensures ImportPorts(target, rows, hostIds).db.hosts == target.hosts
    ensures ImportPorts(target, rows, hostIds).db.subnets == target.subnets
  {
    if rows != [] {
      PortImportKeepsHosts(target, rows[..|rows| - 1], hostIds);
    }
  }

  lemma LastPort(db: Db, target: Db, hostIds: Ids, init: seq<PortKey>, k: PortKey)
    requires forall x | x in init + [k] :: x in db.ports
    ensures ImportPorts(target, ExportPorts(db, init + [k]), hostIds)
         == PortStep(ImportPorts(target, ExportPorts(db, init), hostIds), ExportPort(k, db.ports[k]), hostIds)
  {
    hide PortStep, ExportPort;
    var rows := ExportPorts(db, init + [k]);
    assert rows == ExportPorts(db, init) + [ExportPort(k, db.ports[k])];
    assert rows[..|rows| - 1] == ExportPorts(db, init);
  }

  lemma {:induction false} PortsComeBack(db: Db, target: Db, hostIds: Ids, order: seq<PortKey>)
    requires target.ports == map[] && HostIds(hostIds, target.hosts) && Injective(hostIds)
    requires Distinct(order) && forall k | k in order :: k in db.ports && k.proto != ""
    ensures PortsRestored(db, ImportPorts(target, ExportPorts(db, order), hostIds).db, hostIds, order)
  {
    if order != [] {
      hide PortStep, PortsRestored, HostIds, ImportPorts, ExportPorts, ExportPort, Injective;
      var n := |order| - 1;
      var init, k := order[..n], order[n];
      assert order == init + [k] && k in order && k !in init;
      assert forall x | x in init :: x in order;
      PortsComeBack(db, target, hostIds, init);
      PortImportKeepsHosts(target, ExportPorts(db, init), hostIds);
      PortAdded(db, ImportPorts(target, ExportPorts(db, init), hostIds), hostIds, init, k);
      LastPort(db, target, hostIds, init, k);
    }
  }

  // ---- the whole round trip ----

  /** `segIds` and `hostIds` are one-to-one renumberings under which the two inventories are the same:
      exactly the parsable subnets, the hosts with a parsable address on them and those hosts' open
      ports came back, each with everything its document entry can carry. */
  ghost predicate Isomorphic(db: Db, r: Imported, o: Order, syn: Syntax, reasons: Findings) {
    && Injective(r.segIds) && Injective(r.hostIds)
    && SubnetsRestored(db, r.db, r.segIds, o.subnets, syn)
    && HostsRestored(db, r.db, r.segIds, r.hostIds, o.hosts, syn, reasons)
    && PortsRestored(db, r.db, r.hostIds, o.ports)
  }

  /** Main: export then import into a store without subnets, hosts or ports is an isomorphism. Port rows
      name a protocol, so the importer's default never merges two of them. */
  lemma ExportThenImport(db: Db, target: Db, o: Order, syn: Syntax, reasons: Findings)
    requires Sound(db) && Sound(target) && Covers(o, db)
    requires target.subnets == map[] && target.hosts == map[] && target.ports == map[]
    requires ProtocolsNamed(db)
    ensures Isomorphic(db, ImportDocument(target, ExportDocument(db, o, reasons), syn, true), o, syn, reasons)
  {
    hide SubnetsRestored, HostsRestored, PortsRestored, ImportSegments, ImportHosts, ImportPorts, UniqueHosts;
    hide UniqueSubnets;
    var doc := ExportDocument(db, o, reasons);
    SubnetsComeBack(db, target, o.subnets, syn);
    var (db1, segIds) := ImportSegments(target, doc.segments, syn, true);
    SegmentIdsResolve(target, doc.segments, syn, true);
    RestoredIdsInjective(db, db1, segIds, o.subnets, syn);
    HostsComeBack(db, db1, segIds, o.hosts, syn, reasons);
    var h := ImportHosts(db1, doc.hosts, segIds, syn);
    HostsKeepSubnets(db1, doc.hosts, segIds, syn);
    ImportedSound(db1, doc, segIds, syn);
    RestoredHostIds(db, h.db, segIds, h.ids, o.hosts, syn, reasons);
    PortsComeBack(db, h.db, h.ids, o.ports);
    PortImportKeepsHosts(h.db, doc.ports, h.ids);
    var p := ImportPorts(h.db, doc.ports, h.ids);
    SameSubnetsRestored(db, db1, p.db, segIds, o.subnets, syn);
    SameHostsRestored(db, h.db, p.db, segIds, h.ids, o.hosts, syn, reasons);
  }

  lemma SameSubnetsRestored(db: Db, d: Db, d': Db, ids: Ids, order: seq<string>, syn: Syntax)
    requires SubnetsRestored(db, d, ids, order, syn) && d'.subnets == d.subnets
    ensures SubnetsRestored(db, d', ids, order, syn)
  {
    assert forall c | c in d.subnets :: SubnetRestored(db, d, ids, c) <==> SubnetRestored(db, d', ids, c);
  }

  lemma SameHostsRestored(
    db: Db, d: Db, d': Db, segIds: Ids, hostIds: Ids, order: seq<HostKey>, syn: Syntax, reasons: Findings)
    requires HostsRestored(db, d, segIds, hostIds, order, syn, reasons) && d'.hosts == d.hosts
    ensures HostsRestored(db, d', segIds, hostIds, order, syn, reasons)
  {
    forall k | k in order && k in db.hosts && Returns(k, segIds, syn)
      ensures HostRestored(db, d', segIds, hostIds, reasons, k)
    {
      assert HostRestored(db, d, segIds, hostIds, reasons, k);
    }
  }

  /** Every subnet, host and open port with a positive number came back. */
  ghost predicate AllBack(db: Db, r: Imported, syn: Syntax, reasons: Findings) {
    && (forall c | c in db.subnets :: c in r.db.subnets && SubnetRestored(db, r.db, r.segIds, c))
    && (forall k | k in db.hosts ::
          Returns(k, r.segIds, syn) && HostRestored(db, r.db, r.segIds, r.hostIds, reasons, k))
    && (forall k | k in db.ports && db.ports[k].open && k.port > 0 ::
          HostExportId(k.host) in r.hostIds && PortRestored(db, r.db, r.hostIds, k))
  }

  ghost predicate AllParse(db: Db, syn: Syntax) {
    (forall c | c in db.subnets :: syn.cidr(c)) && (forall k | k in db.hosts :: syn.ip(k.ip))
  }

  lemma HostBack(db: Db, r: Imported, o: Order, syn: Syntax, reasons: Findings, k: HostKey)
    requires HostsPlaced(db.hosts, db.subnets) && Covers(o, db) && AllParse(db, syn) && k in db.hosts
    requires SubnetsRestored(db, r.db, r.segIds, o.subnets, syn)
    requires HostsRestored(db, r.db, r.segIds, r.hostIds, o.hosts, syn, reasons)
    ensures Returns(k, r.segIds, syn) && HostRestored(db, r.db, r.segIds, r.hostIds, reasons, k)
  {
    hide HostRestored, IsReturned, IsReturnedId, IsReturnedSegment;
    var c :| c in db.subnets && db.subnets[c].id == k.subnet;
    assert c in o.subnets && SubnetRestored(db, r.db, r.segIds, c);
    assert k in o.hosts;
  }

  lemma PortBack(db: Db, r: Imported, o: Order, syn: Syntax, reasons: Findings, k: PortKey)
    requires HostsPlaced(db.hosts, db.subnets) && PortsPlaced(db.ports, db.hosts) && Covers(o, db) && AllParse(db, syn)
    requires Isomorphic(db, r, o, syn, reasons) && k in db.ports && db.ports[k].open && k.port > 0
    ensures HostExportId(k.host) in r.hostIds && PortRestored(db, r.db, r.hostIds, k)
  {
    hide SubnetsRestored, HostsRestored, AllParse, PortRestored, IsReturnedPort, Injective, HostsPlaced;
    var h :| h in db.hosts && db.hosts[h].id == k.host;
    HostBack(db, r, o, syn, reasons, h);
    assert k in o.ports && PortReturns(k, db.ports[k], r.hostIds);
  }

  lemma IsomorphicIsBack(db: Db, r: Imported, o: Order, syn: Syntax, reasons: Findings)
    requires Sound(db) && Covers(o, db) && AllParse(db, syn) && Isomorphic(db, r, o, syn, reasons)
    ensures AllBack(db, r, syn, reasons)
  {
    hide HostsRestored, PortsRestored, HostRestored, PortRestored, Injective, IsReturnedSegment;
    hide UniqueSubnets, UniqueHosts, HostsPlaced, PortsPlaced;
    forall k | k in db.hosts
      ensures Returns(k, r.segIds, syn) && HostRestored(db, r.db, r.segIds, r.hostIds, reasons, k)
    {
      HostBack(db, r, o, syn, reasons, k);
    }
    forall k | k in db.ports && db.ports[k].open && k.port > 0
      ensures HostExportId(k.host) in r.hostIds && PortRestored(db, r.db, r.hostIds, k)
    {
      PortBack(db, r, o, syn, reasons, k);
    }
  }

  /** In particular, when every stored text parses nothing but closed ports and non-positive numbers is lost. */
  lemma NothingLost(db: Db, target: Db, o: Order, syn: Syntax, reasons: Findings)
    requires Sound(db) && Sound(target) && Covers(o, db)
    requires target.subnets == map[] && target.hosts == map[] && target.ports == map[]
    requires ProtocolsNamed(db) && AllParse(db, syn)
    ensures AllBack(db, ImportDocument(target, ExportDocument(db, o, reasons), syn, true), syn, reasons)
  {
    hide *;
    ExportThenImport(db, target, o, syn, reasons);
    IsomorphicIsBack(db, ImportDocument(target, ExportDocument(db, o, reasons), syn, true), o, syn, reasons);
  }

  /** Main: this holds of every inventory a run can reach, because runs keep it sound and name protocols. */
  lemma EveryInventoryComesBack(run: Run, threshold: nat, target: Db, o: Order, syn: Syntax, reasons: Findings)
    requires Sound(target) && target.subnets == map[] && target.hosts == map[] && target.ports == map[]
    requires Covers(o, Exec(run, threshold))
    ensures var db := Exec(run, threshold);
            var r := ImportDocument(target, ExportDocument(db, o, reasons), syn, true);
            Isomorphic(db, r, o, syn, reasons) && (AllParse(db, syn) ==> AllBack(db, r, syn, reasons))
  {
    hide *;
    var db := Exec(run, threshold);
    RunsSound(run, threshold);
    RunsNameProtocols(run, threshold);
    ExportThenImport(db, target, o, syn, reasons);
    if AllParse(db, syn) {
      NothingLost(db, target, o, syn, reasons);
    }
  }
}
