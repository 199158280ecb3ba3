/** What importing a document means for one row, said of the entries themselves: which entries make a row,
    which of them speaks for each column, and what an import of either form leaves alone. */
module ImportLaws {
  import opened Tables
  import opened Imports
  import opened ImportIdempotence
  import opened Runs

  // ---- segments ----

  ghost predicate NamesSubnet(s: Segment, syn: Syntax, c: string) {
    syn.cidr(s.cidr) && s.cidr == c
  }

  /** Segment `i` is the last one of its CIDR. */
  ghost predicate LastSegment(segs: seq<Segment>, syn: Syntax, c: string, i: nat)
    requires i < |segs|
  {
    NamesSubnet(segs[i], syn, c) && forall j | i < j < |segs| :: !NamesSubnet(segs[j], syn, c)
  }

  ghost predicate SubnetNamed(segs: seq<Segment>, syn: Syntax, c: string) {
    exists i | 0 <= i < |segs| :: NamesSubnet(segs[i], syn, c)
  }

  /** The row of a CIDR, `had` being what was stored: a stored subnet keeps its id, origin, interface and a name
      it has, a new one is automatic, and only the system form touches the flags. */
  ghost predicate SubnetLaw(had: map<string, SubnetRow>, row: SubnetRow, full: bool, c: string) {
    if c in had then
      && row.id == had[c].id && row.origin == had[c].origin && row.iface == had[c].iface
      && (had[c].name != "" ==> row.name == had[c].name)
      && (!full ==> row.hidden == had[c].hidden && row.enabled == had[c].enabled)
    else
      row.origin == Auto && row.iface == "" && (!full ==> !row.hidden && row.enabled)
  }

  /** In the system form the flags are those of the CIDR's last segment. */
  ghost predicate FlagLaw(row: SubnetRow, segs: seq<Segment>, syn: Syntax, c: string) {
    forall i | 0 <= i < |segs| && LastSegment(segs, syn, c, i) ::
      row.hidden == segs[i].hidden && row.enabled == segs[i].enabled
  }

  lemma SegmentRow(d: Db, s: Segment, syn: Syntax, full: bool, c: string)
    requires Sound(d)
    ensures var rows := SegmentStep(d, s, syn, full).subnets;
            && (c in rows <==> c in d.subnets || NamesSubnet(s, syn, c))
            && (c in rows && !NamesSubnet(s, syn, c) ==> rows[c] == d.subnets[c])
            && (NamesSubnet(s, syn, c) ==>
                  && (c in d.subnets ==> SubnetLaw(d.subnets, rows[c], full, c))
                  && (c !in d.subnets ==> SubnetLaw(map[], rows[c], full, c))
                  && (full ==> rows[c].hidden == s.hidden && rows[c].enabled == s.enabled))
  {
    SegmentStepIsPatch(d, s, syn, full);
    hide SegmentStep, Sound;
  }

  lemma OneMoreSegment(row: SubnetRow, row': SubnetRow, segs: seq<Segment>, syn: Syntax, c: string)
    requires segs != [] && FlagLaw(row, segs[..|segs| - 1], syn, c)
    requires var s := segs[|segs| - 1];
             if NamesSubnet(s, syn, c) then row'.hidden == s.hidden && row'.enabled == s.enabled else row' == row
    ensures FlagLaw(row', segs, syn, c)
  {
    hide NamesSubnet;
    var init := segs[..|segs| - 1];
    forall i | 0 <= i < |segs| && LastSegment(segs, syn, c, i)
      ensures row'.hidden == segs[i].hidden && row'.enabled == segs[i].enabled
    {
      if i < |init| {
        assert segs[i] == init[i] && forall j | i < j < |init| :: init[j] == segs[j];
        assert LastSegment(init, syn, c, i);
      }
    }
  }

  lemma NamedOneMore(segs: seq<Segment>, syn: Syntax, c: string)
    requires segs != []
    ensures SubnetNamed(segs, syn, c) <==>
            SubnetNamed(segs[..|segs| - 1], syn, c) || NamesSubnet(segs[|segs| - 1], syn, c)
    ensures !SubnetNamed(segs[..|segs| - 1], syn, c) ==>
              forall i | 0 <= i < |segs| - 1 :: !LastSegment(segs, syn, c, i)
  {
    hide NamesSubnet;
    assert forall i | 0 <= i < |segs| - 1 :: segs[..|segs| - 1][i] == segs[i];
  }

  /** Main: a segment import stores exactly the CIDRs that parse. It keeps a stored subnet's id, origin and
      interface and a name it has; a new subnet is an automatic one. Only the system form touches the flags,
      which are then those of the CIDR's last segment. */
  lemma {:induction false} SegmentLaw(db: Db, segs: seq<Segment>, syn: Syntax, full: bool, c: string)
    requires Sound(db)
    ensures var rows := ImportSegments(db, segs, syn, full).0.subnets;
            && (c in rows <==> c in db.subnets || SubnetNamed(segs, syn, c))
            && (c in rows ==> SubnetLaw(db.subnets, rows[c], full, c))
            && (c in rows && full ==> FlagLaw(rows[c], segs, syn, c))
  {
    if segs != [] {
      hide Sound, SegmentStep, FlagLaw, SubnetNamed, NamesSubnet;
      var init, s := segs[..|segs| - 1], segs[|segs| - 1];
      SegmentLaw(db, init, syn, full, c);
      FirstSegments(db, init, syn, full);
      var d := ImportSegments(db, init, syn, full).0;
      SegmentRow(d, s, syn, full, c);
      NamedOneMore(segs, syn, c);
      if c in d.subnets {
        if full { OneMoreSegment(d.subnets[c], SegmentStep(d, s, syn, full).subnets[c], segs, syn, c); }
      } else if NamesSubnet(s, syn, c) {
        if full { OnlyLastSpeaks(SegmentStep(d, s, syn, full).subnets[c], segs, syn, c); }
      }
    }
  }

  lemma OnlyLastSpeaks(row: SubnetRow, segs: seq<Segment>, syn: Syntax, c: string)
    requires segs != [] && forall i | 0 <= i < |segs| - 1 :: !LastSegment(segs, syn, c, i)
    requires row.hidden == segs[|segs| - 1].hidden && row.enabled == segs[|segs| - 1].enabled
    ensures FlagLaw(row, segs, syn, c)
  {
    hide LastSegment;
  }

  /** Segment `i` is the first that gives the CIDR a name. */
  ghost predicate FirstName(segs: seq<Segment>, syn: Syntax, c: string, i: nat)
    requires i < |segs|
  {
    && NamesSubnet(segs[i], syn, c) && segs[i].name != ""
    && forall j | 0 <= j < i && NamesSubnet(segs[j], syn, c) :: segs[j].name == ""
  }

  ghost predicate Nameless(segs: seq<Segment>, syn: Syntax, c: string) {
    forall i | 0 <= i < |segs| && NamesSubnet(segs[i], syn, c) :: segs[i].name == ""
  }

  /** Main: a subnet without a name gets that of the first segment that has one. */
  lemma {:induction false} NameLaw(db: Db, segs: seq<Segment>, syn: Syntax, full: bool, c: string)
    requires Sound(db) && (c in db.subnets ==> db.subnets[c].name == "")
    ensures var rows := ImportSegments(db, segs, syn, full).0.subnets;
            && (c in rows && Nameless(segs, syn, c) ==> rows[c].name == "")
            && (forall i | 0 <= i < |segs| && FirstName(segs, syn, c, i) :: c in rows && rows[c].name == segs[i].name)
            && (c in rows && rows[c].name == "" ==> Nameless(segs, syn, c))
            && (c !in rows ==> Nameless(segs, syn, c))
  {
    if segs != [] {
      hide Sound, SegmentStep, NamesSubnet;
      var init, s := segs[..|segs| - 1], segs[|segs| - 1];
      assert forall i | 0 <= i < |init| :: init[i] == segs[i];
      NameLaw(db, init, syn, full, c);
      FirstSegments(db, init, syn, full);
      var d := ImportSegments(db, init, syn, full).0;
      SegmentName(d, s, syn, full, c);
      forall i | 0 <= i < |init| && FirstName(segs, syn, c, i) ensures FirstName(init, syn, c, i) {}
    }
  }

  lemma SegmentName(d: Db, s: Segment, syn: Syntax, full: bool, c: string)
    requires Sound(d)
    ensures var rows := SegmentStep(d, s, syn, full).subnets;
            && (c in rows <==> c in d.subnets || NamesSubnet(s, syn, c))
            && (c in rows ==>
                  var had := if c in d.subnets then d.subnets[c].name else "";
                  rows[c].name == if NamesSubnet(s, syn, c) && had == "" then s.name else had)
  {
    SegmentStepIsPatch(d, s, syn, full);
    hide SegmentStep, Sound;
  }

  // ---- hosts ----

  ghost predicate NamesHost(h: DocHost, segIds: Ids, syn: Syntax, k: HostKey) {
    h.segmentId in segIds && syn.ip(h.ip) && k == HostKey(segIds[h.segmentId], h.ip)
  }

  /** Entry `i` is the first that gives host `k` a text, as `of` reads it. */
  ghost predicate FirstText(hosts: seq<DocHost>, segIds: Ids, syn: Syntax, k: HostKey, of: DocHost -> string, i: nat)
    requires i < |hosts|
  {
    && NamesHost(hosts[i], segIds, syn, k) && of(hosts[i]) != ""
    && forall j | 0 <= j < i && NamesHost(hosts[j], segIds, syn, k) :: of(hosts[j]) == ""
  }

  ghost predicate FirstEntry(hosts: seq<DocHost>, segIds: Ids, syn: Syntax, k: HostKey, i: nat)
    requires i < |hosts|
  {
    NamesHost(hosts[i], segIds, syn, k) && forall j | 0 <= j < i :: !NamesHost(hosts[j], segIds, syn, k)
  }

  function MacText(h: DocHost): string {
    h.mac
  }

  function NameText(h: DocHost): string {
    h.hostname
  }

  function VendorText(h: DocHost): string {
    h.vendor
  }

  /** A column is what was stored, or else what the first entry that has it says, or else empty. */
  ghost predicate ColumnLaw(stored: string, now: string, hosts: seq<DocHost>, segIds: Ids, syn: Syntax, k: HostKey,
                            of: DocHost -> string)
  {
    && (stored != "" ==> now == stored)
    && (stored == "" ==>
          && (forall i | 0 <= i < |hosts| && FirstText(hosts, segIds, syn, k, of, i) :: now == of(hosts[i]))
          && (now != "" ==> exists i | 0 <= i < |hosts| :: FirstText(hosts, segIds, syn, k, of, i)))
  }

  lemma ColumnStep(stored: string, before: string, hosts: seq<DocHost>, segIds: Ids, syn: Syntax, k: HostKey,
                   of: DocHost -> string)
    requires hosts != [] && ColumnLaw(stored, before, hosts[..|hosts| - 1], segIds, syn, k, of)
    ensures var h := hosts[|hosts| - 1];
            ColumnLaw(stored, if NamesHost(h, segIds, syn, k) && before == "" then of(h) else before,
                      hosts, segIds, syn, k, of)
  {
    var n := |hosts| - 1;
    var init, h := hosts[..n], hosts[n];
    hide NamesHost;
    if stored == "" {
      forall i | 0 <= i < n && FirstText(hosts, segIds, syn, k, of, i) ensures FirstText(init, segIds, syn, k, of, i) {
        assert forall j | 0 <= j <= i :: init[j] == hosts[j];
      }
      if before != "" {
        var i :| 0 <= i < n && FirstText(init, segIds, syn, k, of, i);
        assert hosts[i] == init[i] && FirstText(hosts, segIds, syn, k, of, i) by {
          assert forall j | 0 <= j <= i :: init[j] == hosts[j];
        }
      } else if NamesHost(h, segIds, syn, k) && of(h) != "" {
        NoneBefore(hosts, segIds, syn, k, of, n);
        assert FirstText(hosts, segIds, syn, k, of, n);
      }
    }
  }

  /** If no entry before `n` is the first with a text, none has one. */
  lemma NoneBefore(hosts: seq<DocHost>, segIds: Ids, syn: Syntax, k: HostKey, of: DocHost -> string, n: nat)
    requires n <= |hosts|
    requires forall i | 0 <= i < n :: !FirstText(hosts[..n], segIds, syn, k, of, i) || of(hosts[i]) == ""
    ensures forall j | 0 <= j < n && NamesHost(hosts[j], segIds, syn, k) :: of(hosts[j]) == ""
  {
    hide NamesHost;
    var m := 0;
    while m < n
      invariant m <= n && forall j | 0 <= j < m && NamesHost(hosts[j], segIds, syn, k) :: of(hosts[j]) == ""
    {
      assert hosts[..n][m] == hosts[m];
      m := m + 1;
    }
  }

  function BlankOr(hosts: map<HostKey, HostRow>, k: HostKey): HostRow {
    if k in hosts then hosts[k] else HostRow(0, "", "", "", Unknown, Auto, "", 0, false, false)
  }

  ghost predicate TextLaw(old_: HostRow, row: HostRow, hosts: seq<DocHost>, segIds: Ids, syn: Syntax, k: HostKey) {
    && ColumnLaw(old_.mac, row.mac, hosts, segIds, syn, k, MacText)
    && ColumnLaw(old_.hostname, row.hostname, hosts, segIds, syn, k, NameText)
    && ColumnLaw(old_.vendor, row.vendor, hosts, segIds, syn, k, VendorText)
  }

  /** The row of a host, `had` being what was stored: its texts by the entries, all else as stored, or for a new
      host unknown and automatic with the notes of the first entry. */
  ghost predicate RowLaw(had: map<HostKey, HostRow>, row: HostRow, hosts: seq<DocHost>, segIds: Ids, syn: Syntax,
                         k: HostKey)
  {
    && TextLaw(BlankOr(had, k), row, hosts, segIds, syn, k)
    && (if k in had then row == had[k].(mac := row.mac, hostname := row.hostname, vendor := row.vendor)
        else
          && row.status == Unknown && row.origin == Auto && row.misses == 0 && !row.acked && !row.newAck
          && forall i | 0 <= i < |hosts| && FirstEntry(hosts, segIds, syn, k, i) :: row.notes == hosts[i].notes)
  }

  ghost predicate Mentioned(hosts: seq<DocHost>, segIds: Ids, syn: Syntax, k: HostKey) {
    exists i | 0 <= i < |hosts| :: NamesHost(hosts[i], segIds, syn, k)
  }

  lemma NothingSaid(row: HostRow, segIds: Ids, syn: Syntax, k: HostKey)
    ensures TextLaw(row, row, [], segIds, syn, k)
  {
  }

  lemma TextStep(old_: HostRow, row: HostRow, hosts: seq<DocHost>, segIds: Ids, syn: Syntax, k: HostKey)
    requires hosts != [] && TextLaw(old_, row, hosts[..|hosts| - 1], segIds, syn, k)
    ensures var h := hosts[|hosts| - 1];
            TextLaw(old_, if NamesHost(h, segIds, syn, k)
                          then row.(mac := Fill(row.mac, h.mac), hostname := Fill(row.hostname, h.hostname),
                                    vendor := Fill(row.vendor, h.vendor))
                          else row, hosts, segIds, syn, k)
  {
    ColumnStep(old_.mac, row.mac, hosts, segIds, syn, k, MacText);
    ColumnStep(old_.hostname, row.hostname, hosts, segIds, syn, k, NameText);
    ColumnStep(old_.vendor, row.vendor, hosts, segIds, syn, k, VendorText);
    hide ColumnLaw, NamesHost;
  }

  lemma FirstStays(hosts: seq<DocHost>, segIds: Ids, syn: Syntax, k: HostKey)
    requires hosts != []
    ensures var init := hosts[..|hosts| - 1];
            && (Mentioned(hosts, segIds, syn, k) <==>
                  Mentioned(init, segIds, syn, k) || NamesHost(hosts[|hosts| - 1], segIds, syn, k))
            && (Mentioned(init, segIds, syn, k) ==>
                  forall i | 0 <= i < |hosts| && FirstEntry(hosts, segIds, syn, k, i) ::
                    i < |init| && FirstEntry(init, segIds, syn, k, i))
            && (!Mentioned(init, segIds, syn, k) ==>
                  forall i | 0 <= i < |hosts| && FirstEntry(hosts, segIds, syn, k, i) :: i == |hosts| - 1)
  {
    hide NamesHost;
    var init := hosts[..|hosts| - 1];
    assert forall j | 0 <= j < |init| :: init[j] == hosts[j];
  }

  /** Main: a host import stores exactly the hosts that an entry with a known segment and a parsable address
      names. A new one is unknown and automatic and has the notes of its first entry; each of its texts, like an
      empty one of a stored host, is that of the first entry that has it. Nothing else of a stored host changes. */
  lemma {:induction false} HostLaw(db: Db, hosts: seq<DocHost>, segIds: Ids, syn: Syntax, k: HostKey)
    requires SubnetIds(segIds, db.subnets)
    ensures var rows := ImportHosts(db, hosts, segIds, syn).db.hosts;
            && (k in rows <==> k in db.hosts || Mentioned(hosts, segIds, syn, k))
            && (k in rows ==> RowLaw(db.hosts, rows[k], hosts, segIds, syn, k))
  {
    if hosts == [] {
      NothingSaid(BlankOr(db.hosts, k), segIds, syn, k);
    } else {
      var init, h := hosts[..|hosts| - 1], hosts[|hosts| - 1];
      HostLaw(db, init, segIds, syn, k);
      HostsKeepSubnets(db, init, segIds, syn);
      var s := ImportHosts(db, init, segIds, syn);
      var rows := HostStep(s, h, segIds, syn).db.hosts;
      FirstStays(hosts, segIds, syn, k);
      hide TextLaw, ImportHosts, SubnetIds, Mentioned, FirstEntry;
      StepRow(s, h, segIds, syn, k, db);
      if k in s.db.hosts {
        TextStep(BlankOr(db.hosts, k), s.db.hosts[k], hosts, segIds, syn, k);
      } else if NamesHost(h, segIds, syn, k) {
        NobodySaid(init, segIds, syn, k);
        TextStep(BlankOr(db.hosts, k), BlankOr(db.hosts, k), hosts, segIds, syn, k);
        SameTexts(BlankOr(db.hosts, k), rows[k], hosts, segIds, syn, k);
      }
    }
  }

  /** One entry and one row. */
  lemma StepRow(s: HostImport, h: DocHost, segIds: Ids, syn: Syntax, k: HostKey, db: Db)
    requires SubnetIds(segIds, db.subnets) && s.db.subnets == db.subnets
    ensures var rows := HostStep(s, h, segIds, syn).db.hosts;
            && (k in rows <==> k in s.db.hosts || NamesHost(h, segIds, syn, k))
            && (k in s.db.hosts && !NamesHost(h, segIds, syn, k) ==> rows[k] == s.db.hosts[k])
            && (k in s.db.hosts && NamesHost(h, segIds, syn, k) ==>
                  var row := s.db.hosts[k];
                  rows[k] == row.(mac := Fill(row.mac, h.mac), hostname := Fill(row.hostname, h.hostname),
                                  vendor := Fill(row.vendor, h.vendor)))
            && (k in rows && k !in s.db.hosts ==>
                  rows[k] == HostRow(rows[k].id, h.mac, h.hostname, h.vendor, Unknown, Auto, h.notes, 0, false, false))
  {
    if HostUsable(h, segIds, syn) {
      assert HasSubnet(db.subnets, segIds[h.segmentId]);
    }
    hide HasSubnet;
  }

  lemma NobodySaid(hosts: seq<DocHost>, segIds: Ids, syn: Syntax, k: HostKey)
    requires !Mentioned(hosts, segIds, syn, k)
    ensures TextLaw(HostRow(0, "", "", "", Unknown, Auto, "", 0, false, false),
                    HostRow(0, "", "", "", Unknown, Auto, "", 0, false, false), hosts, segIds, syn, k)
  {
    hide NamesHost;
  }

  lemma SameTexts(old_: HostRow, row: HostRow, hosts: seq<DocHost>, segIds: Ids, syn: Syntax, k: HostKey)
    requires TextLaw(old_, old_.(mac := row.mac, hostname := row.hostname, vendor := row.vendor), hosts, segIds, syn, k)
    ensures TextLaw(old_, row, hosts, segIds, syn, k)
  {
    hide ColumnLaw;
  }

  // ---- ports ----

  ghost predicate NamesPort(p: DocPort, hostIds: Ids, k: PortKey) {
    && p.hostId in hostIds && p.port > 0 && p.state == "open"
    && k == PortKey(hostIds[p.hostId], p.port, if p.proto == "" then "tcp" else p.proto)
  }

  /** Entry `i` is the last that names port `k`. */
  ghost predicate LastPort(ports: seq<DocPort>, hostIds: Ids, k: PortKey, i: nat)
    requires i < |ports|
  {
    NamesPort(ports[i], hostIds, k) && forall j | i < j < |ports| :: !NamesPort(ports[j], hostIds, k)
  }

  /** Entry `i` is the last that gives port `k` a banner, and a version. */
  ghost predicate LastBanner(ports: seq<DocPort>, hostIds: Ids, k: PortKey, i: nat)
    requires i < |ports|
  {
    && NamesPort(ports[i], hostIds, k) && ports[i].notes != ""
    && forall j | i < j < |ports| && NamesPort(ports[j], hostIds, k) :: ports[j].notes == ""
  }

  ghost predicate LastVersion(ports: seq<DocPort>, hostIds: Ids, k: PortKey, i: nat)
    requires i < |ports|
  {
    && NamesPort(ports[i], hostIds, k) && ports[i].version != ""
    && forall j | i < j < |ports| && NamesPort(ports[j], hostIds, k) :: ports[j].version == ""
  }

  ghost predicate PortNamed(ports: seq<DocPort>, hostIds: Ids, k: PortKey) {
    exists i | 0 <= i < |ports| :: NamesPort(ports[i], hostIds, k)
  }

  lemma NamesIsTargets(p: DocPort, hostIds: Ids, k: PortKey)
    ensures NamesPort(p, hostIds, k) <==> PortUsable(p, hostIds) && TargetPort(p, hostIds) == k
  {
  }

  lemma {:induction false} ServiceIsLast(ports: seq<DocPort>, hostIds: Ids, k: PortKey)
    ensures PortPatchAt(ports, hostIds, k).touched <==> PortNamed(ports, hostIds, k)
    ensures forall i | 0 <= i < |ports| && LastPort(ports, hostIds, k, i) ::
              PortPatchAt(ports, hostIds, k).service == ports[i].service
  {
    if ports != [] {
      hide NamesPort, PortUsable;
      var init, last := ports[..|ports| - 1], ports[|ports| - 1];
      ServiceIsLast(init, hostIds, k);
      NamesIsTargets(last, hostIds, k);
      assert forall i | 0 <= i < |init| :: init[i] == ports[i];
    }
  }

  lemma {:induction false} BannerIsLast(ports: seq<DocPort>, hostIds: Ids, k: PortKey)
    ensures forall i | 0 <= i < |ports| && LastBanner(ports, hostIds, k, i) ::
              PortPatchAt(ports, hostIds, k).banner == ports[i].notes
    ensures NoBanner(ports, hostIds, k) ==> PortPatchAt(ports, hostIds, k).banner == ""
  {
    if ports != [] {
      hide NamesPort, PortUsable;
      var init, last := ports[..|ports| - 1], ports[|ports| - 1];
      BannerIsLast(init, hostIds, k);
      NamesIsTargets(last, hostIds, k);
      assert forall i | 0 <= i < |init| :: init[i] == ports[i];
    }
  }

  lemma {:induction false} VersionIsLast(ports: seq<DocPort>, hostIds: Ids, k: PortKey)
    ensures forall i | 0 <= i < |ports| && LastVersion(ports, hostIds, k, i) ::
              PortPatchAt(ports, hostIds, k).version == ports[i].version
    ensures NoVersion(ports, hostIds, k) ==> PortPatchAt(ports, hostIds, k).version == ""
  {
    if ports != [] {
      hide NamesPort, PortUsable;
      var init, last := ports[..|ports| - 1], ports[|ports| - 1];
      VersionIsLast(init, hostIds, k);
      NamesIsTargets(last, hostIds, k);
      assert forall i | 0 <= i < |init| :: init[i] == ports[i];
    }
  }

  ghost predicate NoBanner(ports: seq<DocPort>, hostIds: Ids, k: PortKey) {
    forall i | 0 <= i < |ports| && NamesPort(ports[i], hostIds, k) :: ports[i].notes == ""
  }

  ghost predicate NoVersion(ports: seq<DocPort>, hostIds: Ids, k: PortKey) {
    forall i | 0 <= i < |ports| && NamesPort(ports[i], hostIds, k) :: ports[i].version == ""
  }

  /** Main: a port import opens exactly the ports that an open entry with a positive number names, TCP where it
      leaves the protocol out, under the service of the last of them, with the banner and the version of the last
      that has one, or else as stored. The product stays, and so do all other rows. */
  lemma PortLaw(db: Db, ports: seq<DocPort>, hostIds: Ids, k: PortKey)
    requires HostIds(hostIds, db.hosts)
    ensures var rows := ImportPorts(db, ports, hostIds).db.ports;
            var old_ := if k in db.ports then db.ports[k] else PortRow(false, "", "", "", "");
            && (k in rows <==> k in db.ports || PortNamed(ports, hostIds, k))
            && (k in rows && !PortNamed(ports, hostIds, k) ==> rows[k] == old_)
            && (k in rows && PortNamed(ports, hostIds, k) ==>
                  && rows[k].open && rows[k].product == old_.product
                  && (forall i | 0 <= i < |ports| && LastPort(ports, hostIds, k, i) ::
                        rows[k].service == ports[i].service)
                  && (forall i | 0 <= i < |ports| && LastBanner(ports, hostIds, k, i) ::
                        rows[k].banner == ports[i].notes)
                  && (forall i | 0 <= i < |ports| && LastVersion(ports, hostIds, k, i) ::
                        rows[k].version == ports[i].version)
                  && (NoBanner(ports, hostIds, k) ==> rows[k].banner == old_.banner)
                  && (NoVersion(ports, hostIds, k) ==> rows[k].version == old_.version))
  {
    ServiceIsLast(ports, hostIds, k);
    BannerIsLast(ports, hostIds, k);
    VersionIsLast(ports, hostIds, k);
    SpokenIsNamed(ports, hostIds, k);
    ImportPatchesPorts(db, ports, hostIds, k);
    hide ImportPorts, PortPatchAt, NamesPort, HostIds, LastPort, LastBanner, LastVersion, NoBanner, NoVersion;
    hide PortNamed;
  }

  lemma SpokenIsNamed(ports: seq<DocPort>, hostIds: Ids, k: PortKey)
    ensures forall i | 0 <= i < |ports| ::
              (LastPort(ports, hostIds, k, i) || LastBanner(ports, hostIds, k, i) ||
               LastVersion(ports, hostIds, k, i)) ==> NamesPort(ports[i], hostIds, k)
    ensures forall i | 0 <= i < |ports| && LastBanner(ports, hostIds, k, i) :: ports[i].notes != ""
    ensures forall i | 0 <= i < |ports| && LastVersion(ports, hostIds, k, i) :: ports[i].version != ""
  {
    hide NamesPort;
  }
}
