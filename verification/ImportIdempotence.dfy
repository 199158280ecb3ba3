/** Importing a document twice changes nothing the second time.

    The entries of a document that name one row act on it as one patch: optional host columns are
    first-non-empty-wins, a subnet's flags and a port's service are last-writer-wins. A patch applied
    to a row it already shaped is absorbed; that is all a second import does. */
module ImportIdempotence {
  import opened Tables
  import opened Imports
  import opened Runs

  // ---- subnets ----

  datatype SubnetPatch = SubnetPatch(touched: bool, name: string, hidden: bool, enabled: bool)

  const NoSubnetPatch := SubnetPatch(false, "", false, false)

  function PatchSubnet(row: SubnetRow, p: SubnetPatch, full: bool): SubnetRow {
    if !p.touched then row
    else if full then row.(name := Fill(row.name, p.name), hidden := p.hidden, enabled := p.enabled)
    else row.(name := Fill(row.name, p.name))
  }

  /** All the segments of one CIDR, as one patch. */
  function SubnetPatchAt(segs: seq<Segment>, syn: Syntax, c: string): SubnetPatch {
    if segs == [] then NoSubnetPatch
    else
      var p, s := SubnetPatchAt(segs[..|segs| - 1], syn, c), segs[|segs| - 1];
      if syn.cidr(s.cidr) && s.cidr == c then SubnetPatch(true, Fill(p.name, s.name), s.hidden, s.enabled) else p
  }

  lemma EditSubnetAt(db: Db, c: string, e: SubnetEdit)
    requires UniqueSubnets(db.subnets, db.nextSubnet) && c in db.subnets
    ensures EditSubnet(db, db.subnets[c].id, e) == db.(subnets := db.subnets[c := EditSubnetRow(db.subnets[c], e)])
  {
    var id := db.subnets[c].id;
    assert EditSubnet(db, id, e).subnets == db.subnets[c := EditSubnetRow(db.subnets[c], e)];
  }

  lemma PutSubnet(subnets: map<string, SubnetRow>, next: nat, c: string, row: SubnetRow)
    requires UniqueSubnets(subnets, next)
    requires if c in subnets then row.id == subnets[c].id else row.id == next
    ensures UniqueSubnets(subnets[c := row], if c in subnets then next else next + 1)
  {
  }

  lemma FlagsAt(db: Db, c: string, hidden: bool, enabled: bool)
    requires UniqueSubnets(db.subnets, db.nextSubnet) && c in db.subnets
    ensures
      var row := db.subnets[c];
      var flagged := db.(subnets := db.subnets[c := row.(hidden := hidden, enabled := enabled)]);
      EditSubnet(EditSubnet(db, row.id, SetHidden(hidden)), row.id, SetEnabled(enabled)) == flagged
  {
    hide EditSubnet, UniqueSubnets;
    var row := db.subnets[c];
    EditSubnetAt(db, c, SetHidden(hidden));
    PutSubnet(db.subnets, db.nextSubnet, c, row.(hidden := hidden));
    var db1 := db.(subnets := db.subnets[c := row.(hidden := hidden)]);
    EditSubnetAt(db1, c, SetEnabled(enabled));
  }

  /** The row a segment acts on: the stored one, or the blank one an insert starts from. */
  function SegmentBase(db: Db, c: string): SubnetRow {
    if c in db.subnets then db.subnets[c] else SubnetRow(db.nextSubnet, "", Auto, "", true, false)
  }

  function PutRow(db: Db, c: string, row: SubnetRow): Db {
    db.(subnets := db.subnets[c := row], nextSubnet := if c in db.subnets then db.nextSubnet else db.nextSubnet + 1)
  }

  lemma UpsertIsPatch(db: Db, c: string, name: string)
    ensures var row := SegmentBase(db, c);
            UpsertAutoSubnet(db, c, name, "") == PutRow(db, c, row.(name := Fill(row.name, name)))
  {
  }

  lemma PutRowTwice(db: Db, c: string, row: SubnetRow, row': SubnetRow)
    ensures PutRow(PutRow(db, c, row), c, row') == PutRow(db, c, row')
  {
    assert db.subnets[c := row][c := row'] == db.subnets[c := row'];
  }

  /** With unique ids, a segment step is a patch of the one row under its CIDR. */
  lemma SegmentStepIsPatch(db: Db, seg: Segment, syn: Syntax, full: bool)
    requires Sound(db)
    ensures var p := SubnetPatch(true, seg.name, seg.hidden, seg.enabled);
            SegmentStep(db, seg, syn, full) ==
              if syn.cidr(seg.cidr) then PutRow(db, seg.cidr, PatchSubnet(SegmentBase(db, seg.cidr), p, full)) else db
  {
    if syn.cidr(seg.cidr) {
      var row := SegmentBase(db, seg.cidr);
      var named := row.(name := Fill(row.name, seg.name));
      UpsertIsPatch(db, seg.cidr, seg.name);
      if full {
        hide EditSubnet, UniqueSubnets, UpsertAutoSubnet;
        PutSubnet(db.subnets, db.nextSubnet, seg.cidr, named);
        FlagsAt(PutRow(db, seg.cidr, named), seg.cidr, seg.hidden, seg.enabled);
        PutRowTwice(db, seg.cidr, named, named.(hidden := seg.hidden, enabled := seg.enabled));
      }
    }
  }

  lemma SegmentStepSound(db: Db, seg: Segment, syn: Syntax, full: bool)
    requires Sound(db)
    ensures Sound(SegmentStep(db, seg, syn, full))
  {
    hide Sound, UpsertAutoSubnet, EditSubnet;
    if syn.cidr(seg.cidr) {
      var db1 := UpsertAutoSubnet(db, seg.cidr, seg.name, "");
      UpsertSubnetSound(db, seg.cidr, seg.name, "");
      var id := db1.subnets[seg.cidr].id;
      EditSubnetSound(db1, id, SetHidden(seg.hidden));
      EditSubnetSound(EditSubnet(db1, id, SetHidden(seg.hidden)), id, SetEnabled(seg.enabled));
    }
  }

  lemma UpsertSubnetSound(db: Db, cidr: string, name: string, iface: string)
    requires Sound(db)
    ensures Sound(UpsertAutoSubnet(db, cidr, name, iface))
    ensures cidr in UpsertAutoSubnet(db, cidr, name, iface).subnets
  {
    StepSound(db, AutoSubnet(cidr, name, iface), 1);
  }

  lemma EditSubnetSound(db: Db, id: nat, e: SubnetEdit)
    requires Sound(db)
    ensures Sound(EditSubnet(db, id, e))
  {
    StepSound(db, ChangeSubnet(id, e), 1);
  }

  /** Segments `segs` have nothing left to change in `subnets`. */
  ghost predicate SegmentsAbsorbed(subnets: map<string, SubnetRow>, segs: seq<Segment>, syn: Syntax, full: bool) {
    forall c :: SubnetPatchAt(segs, syn, c).touched ==>
      c in subnets && PatchSubnet(subnets[c], SubnetPatchAt(segs, syn, c), full) == subnets[c]
  }

  /** The document's segment ids, resolved against final subnet ids. */
  function ResolveSegments(segs: seq<Segment>, syn: Syntax, subnets: map<string, SubnetRow>): Ids {
    if segs == [] then map[]
    else
      var ids, s := ResolveSegments(segs[..|segs| - 1], syn, subnets), segs[|segs| - 1];
      if syn.cidr(s.cidr) && s.cidr in subnets then ids[s.id := subnets[s.cidr].id] else ids
  }

  lemma {:induction false} SameResolution(segs: seq<Segment>, syn: Syntax, a: map<string, SubnetRow>,
                                          b: map<string, SubnetRow>)
    requires forall c | SubnetPatchAt(segs, syn, c).touched :: c in a && c in b && a[c].id == b[c].id
    ensures ResolveSegments(segs, syn, a) == ResolveSegments(segs, syn, b)
  {
    if segs != [] {
      var init, last := segs[..|segs| - 1], segs[|segs| - 1];
      forall c | SubnetPatchAt(init, syn, c).touched ensures c in a && c in b && a[c].id == b[c].id {
        assert SubnetPatchAt(segs, syn, c).touched;
      }
      SameResolution(init, syn, a, b);
      assert syn.cidr(last.cidr) ==> SubnetPatchAt(segs, syn, last.cidr).touched;
    }
  }

  lemma {:induction false} FirstSegments(db: Db, segs: seq<Segment>, syn: Syntax, full: bool)
    requires Sound(db)
    ensures var (db', ids) := ImportSegments(db, segs, syn, full);
            && Sound(db')
            && SegmentsAbsorbed(db'.subnets, segs, syn, full)
            && ids == ResolveSegments(segs, syn, db'.subnets)
  {
    hide Sound;
    if segs != [] {
      var init, seg := segs[..|segs| - 1], segs[|segs| - 1];
      var (d, ids) := ImportSegments(db, init, syn, full);
      FirstSegments(db, init, syn, full);
      var d' := SegmentStep(d, seg, syn, full);
      SegmentStepSound(d, seg, syn, full);
      SegmentStepKeepsIds(d, seg, syn, full);
      SameResolution(init, syn, d.subnets, d'.subnets);
      if syn.cidr(seg.cidr) {
        SegmentStepIsPatch(d, seg, syn, full);
        forall c | SubnetPatchAt(segs, syn, c).touched
          ensures c in d'.subnets && PatchSubnet(d'.subnets[c], SubnetPatchAt(segs, syn, c), full) == d'.subnets[c]
        {
          if c != seg.cidr {
            assert SubnetPatchAt(init, syn, c).touched && d'.subnets[c] == d.subnets[c];
          } else if c !in d.subnets {
            assert !SubnetPatchAt(init, syn, c).touched;
            NoTouchNoName(init, syn, c);
          } else if !SubnetPatchAt(init, syn, c).touched {
            NoTouchNoName(init, syn, c);
          }
        }
      } else {
        forall c ensures SubnetPatchAt(segs, syn, c) == SubnetPatchAt(init, syn, c) {}
      }
    }
  }

  lemma {:induction false} NoTouchNoName(segs: seq<Segment>, syn: Syntax, c: string)
    requires !SubnetPatchAt(segs, syn, c).touched
    ensures SubnetPatchAt(segs, syn, c).name == ""
  {
    if segs != [] {
      NoTouchNoName(segs[..|segs| - 1], syn, c);
    }
  }

  lemma PatchSubnetThen(row: SubnetRow, p: SubnetPatch, s: Segment, full: bool)
    requires p.touched || p.name == ""
    ensures PatchSubnet(PatchSubnet(row, p, full), SubnetPatch(true, s.name, s.hidden, s.enabled), full)
         == PatchSubnet(row, SubnetPatch(true, Fill(p.name, s.name), s.hidden, s.enabled), full)
  {
  }

  /** `d` is `db` with every subnet row patched by the segments replayed so far. */
  ghost predicate SegmentsReplayed(db: Db, d: Db, segs: seq<Segment>, syn: Syntax, full: bool) {
    && d == db.(subnets := d.subnets) && d.subnets.Keys == db.subnets.Keys
    && forall c | c in db.subnets ::
        d.subnets[c].id == db.subnets[c].id &&
        d.subnets[c] == PatchSubnet(db.subnets[c], SubnetPatchAt(segs, syn, c), full)
  }

  lemma ReplaySegmentStep(db: Db, d: Db, segs: seq<Segment>, syn: Syntax, full: bool)
    requires segs != [] && SegmentsReplayed(db, d, segs[..|segs| - 1], syn, full) && Sound(d)
    requires forall c | SubnetPatchAt(segs, syn, c).touched :: c in db.subnets
    ensures SegmentsReplayed(db, SegmentStep(d, segs[|segs| - 1], syn, full), segs, syn, full)
  {
    hide Sound, SegmentStep, PatchSubnet;
    var init, seg := segs[..|segs| - 1], segs[|segs| - 1];
    SegmentStepIsPatch(d, seg, syn, full);
    SegmentStepKeepsIds(d, seg, syn, full);
    if syn.cidr(seg.cidr) {
      assert SubnetPatchAt(segs, syn, seg.cidr).touched;
      if !SubnetPatchAt(init, syn, seg.cidr).touched {
        NoTouchNoName(init, syn, seg.cidr);
      }
      PatchSubnetThen(db.subnets[seg.cidr], SubnetPatchAt(init, syn, seg.cidr), seg, full);
    }
  }

  /** Replaying segments whose subnets all exist only patches rows. */
  lemma {:induction false} ReplaySegments(db: Db, segs: seq<Segment>, syn: Syntax, full: bool)
    requires Sound(db)
    requires forall c | SubnetPatchAt(segs, syn, c).touched :: c in db.subnets
    ensures var (db', ids) := ImportSegments(db, segs, syn, full);
            && SegmentsReplayed(db, db', segs, syn, full)
            && Sound(db')
            && ids == ResolveSegments(segs, syn, db.subnets)
  {
    hide Sound, SegmentStep, PatchSubnet;
    if segs == [] {
      forall c | c in db.subnets ensures PatchSubnet(db.subnets[c], NoSubnetPatch, full) == db.subnets[c] {
        UntouchedSubnet(db.subnets[c], full);
      }
    } else {
      var init, seg := segs[..|segs| - 1], segs[|segs| - 1];
      forall c | SubnetPatchAt(init, syn, c).touched ensures c in db.subnets {
        assert SubnetPatchAt(segs, syn, c).touched;
      }
      ReplaySegments(db, init, syn, full);
      var (d, ids) := ImportSegments(db, init, syn, full);
      SegmentStepSound(d, seg, syn, full);
      ReplaySegmentStep(db, d, segs, syn, full);
    }
  }

  lemma UntouchedSubnet(row: SubnetRow, full: bool)
    ensures PatchSubnet(row, NoSubnetPatch, full) == row
  {
  }

  // ---- hosts ----

  /** All the entries of one host: the first non-empty value of each optional column. */
  datatype HostPatch = HostPatch(touched: bool, mac: string, hostname: string, vendor: string)

  function PatchHost(row: HostRow, p: HostPatch): HostRow {
    row.(mac := Fill(row.mac, p.mac), hostname := Fill(row.hostname, p.hostname), vendor := Fill(row.vendor, p.vendor))
  }

  function HostPatchAt(hosts: seq<DocHost>, segIds: Ids, syn: Syntax, k: HostKey): HostPatch {
    if hosts == [] then HostPatch(false, "", "", "")
    else
      var p, h := HostPatchAt(hosts[..|hosts| - 1], segIds, syn, k), hosts[|hosts| - 1];
      if HostUsable(h, segIds, syn) && TargetHost(h, segIds) == k then
        HostPatch(true, Fill(p.mac, h.mac), Fill(p.hostname, h.hostname), Fill(p.vendor, h.vendor))
      else p
  }

  ghost predicate HostsAbsorbed(hosts: map<HostKey, HostRow>, entries: seq<DocHost>, segIds: Ids, syn: Syntax) {
    forall k :: HostPatchAt(entries, segIds, syn, k).touched ==>
      k in hosts && PatchHost(hosts[k], HostPatchAt(entries, segIds, syn, k)) == hosts[k]
  }

  function ResolveHosts(entries: seq<DocHost>, segIds: Ids, syn: Syntax, hosts: map<HostKey, HostRow>): Ids {
    if entries == [] then map[]
    else
      var ids, h := ResolveHosts(entries[..|entries| - 1], segIds, syn, hosts), entries[|entries| - 1];
      if HostUsable(h, segIds, syn) && TargetHost(h, segIds) in hosts
      then ids[h.id := hosts[TargetHost(h, segIds)].id] else ids
  }

  lemma {:induction false} SameHostResolution(
    entries: seq<DocHost>, segIds: Ids, syn: Syntax, a: map<HostKey, HostRow>, b: map<HostKey, HostRow>)
    requires forall k | HostPatchAt(entries, segIds, syn, k).touched :: k in a && k in b && a[k].id == b[k].id
    ensures ResolveHosts(entries, segIds, syn, a) == ResolveHosts(entries, segIds, syn, b)
  {
    if entries != [] {
      var init, last := entries[..|entries| - 1], entries[|entries| - 1];
      forall k | HostPatchAt(init, segIds, syn, k).touched ensures k in a && k in b && a[k].id == b[k].id {
        assert HostPatchAt(entries, segIds, syn, k).touched;
      }
      SameHostResolution(init, segIds, syn, a, b);
      assert HostUsable(last, segIds, syn) ==> HostPatchAt(entries, segIds, syn, TargetHost(last, segIds)).touched;
    }
  }

  lemma {:induction false} NoTouchNoText(entries: seq<DocHost>, segIds: Ids, syn: Syntax, k: HostKey)
    ensures !HostPatchAt(entries, segIds, syn, k).touched ==>
            HostPatchAt(entries, segIds, syn, k) == HostPatch(false, "", "", "")
  {
    if entries != [] {
      NoTouchNoText(entries[..|entries| - 1], segIds, syn, k);
    }
  }

  lemma {:induction false} FirstHosts(db: Db, entries: seq<DocHost>, segIds: Ids, syn: Syntax)
    requires SubnetIds(segIds, db.subnets)
    ensures var s := ImportHosts(db, entries, segIds, syn);
            && s.db == db.(hosts := s.db.hosts, nextHost := s.db.nextHost)
            && (forall k | k in db.hosts :: k in s.db.hosts && s.db.hosts[k].id == db.hosts[k].id)
            && HostsAbsorbed(s.db.hosts, entries, segIds, syn)
            && s.ids == ResolveHosts(entries, segIds, syn, s.db.hosts)
  {
    if entries != [] {
      var init, h := entries[..|entries| - 1], entries[|entries| - 1];
      FirstHosts(db, init, segIds, syn);
      hide HostStep, HostsAbsorbed;
      FirstHost(ImportHosts(db, init, segIds, syn), entries, segIds, syn);
    }
  }

  /** One more entry of a first import. */
  lemma FirstHost(s: HostImport, entries: seq<DocHost>, segIds: Ids, syn: Syntax)
    requires entries != [] && SubnetIds(segIds, s.db.subnets)
    requires var init := entries[..|entries| - 1];
             HostsAbsorbed(s.db.hosts, init, segIds, syn) && s.ids == ResolveHosts(init, segIds, syn, s.db.hosts)
    ensures var s' := HostStep(s, entries[|entries| - 1], segIds, syn);
            && s'.db == s.db.(hosts := s'.db.hosts, nextHost := s'.db.nextHost)
            && (forall k | k in s.db.hosts :: k in s'.db.hosts && s'.db.hosts[k].id == s.db.hosts[k].id)
            && HostsAbsorbed(s'.db.hosts, entries, segIds, syn)
            && s'.ids == ResolveHosts(entries, segIds, syn, s'.db.hosts)
  {
    var init, h := entries[..|entries| - 1], entries[|entries| - 1];
    var s' := HostStep(s, h, segIds, syn);
    if HostUsable(h, segIds, syn) {
      var k := TargetHost(h, segIds);
      FirstHostRow(s, h, segIds, syn);
      hide HostStep, PatchHost, HostPatchAt, SubnetIds, ResolveHosts;
      FirstHostAbsorbed(s, entries, segIds, syn);
      SameHostResolution(init, segIds, syn, s.db.hosts, s'.db.hosts);
      LastResolved(entries, segIds, syn, s'.db.hosts);
    } else {
      UntouchedByLast(entries, segIds, syn);
      hide PatchHost, HostPatchAt;
    }
  }

  lemma UntouchedByLast(entries: seq<DocHost>, segIds: Ids, syn: Syntax)
    requires entries != [] && !HostUsable(entries[|entries| - 1], segIds, syn)
    ensures forall k :: HostPatchAt(entries, segIds, syn, k) == HostPatchAt(entries[..|entries| - 1], segIds, syn, k)
  {
  }

  lemma LastResolved(entries: seq<DocHost>, segIds: Ids, syn: Syntax, hosts: map<HostKey, HostRow>)
    requires entries != [] && HostUsable(entries[|entries| - 1], segIds, syn)
    requires TargetHost(entries[|entries| - 1], segIds) in hosts
    ensures var h := entries[|entries| - 1];
            ResolveHosts(entries, segIds, syn, hosts) ==
              ResolveHosts(entries[..|entries| - 1], segIds, syn, hosts)[h.id := hosts[TargetHost(h, segIds)].id]
  {
  }

  lemma FirstHostAbsorbed(s: HostImport, entries: seq<DocHost>, segIds: Ids, syn: Syntax)
    requires entries != [] && SubnetIds(segIds, s.db.subnets) && HostUsable(entries[|entries| - 1], segIds, syn)
    requires HostsAbsorbed(s.db.hosts, entries[..|entries| - 1], segIds, syn)
    ensures HostsAbsorbed(HostStep(s, entries[|entries| - 1], segIds, syn).db.hosts, entries, segIds, syn)
  {
    var init, h := entries[..|entries| - 1], entries[|entries| - 1];
    var k := TargetHost(h, segIds);
    FirstHostRow(s, h, segIds, syn);
    NoTouchNoText(init, segIds, syn, k);
    LastTouch(entries, segIds, syn);
    var p := HostPatchAt(init, segIds, syn, k);
    var row := if k in s.db.hosts then s.db.hosts[k] else HostStep(s, h, segIds, syn).db.hosts[k];
    if p.touched {
      AbsorbsMore(row, p, h);
    } else {
      AbsorbsFirst(row, h);
    }
    hide HostStep, Fill, SubnetIds, PatchHost, HostPatchAt;
  }

  lemma AbsorbsFirst(row: HostRow, h: DocHost)
    ensures var row' := PatchHost(row, HostPatch(true, h.mac, h.hostname, h.vendor));
            PatchHost(row', HostPatch(true, Fill("", h.mac), Fill("", h.hostname), Fill("", h.vendor))) == row'
  {
  }

  /** The row an entry leaves: the stored one with gaps filled, or a new one holding its values. */
  lemma FirstHostRow(s: HostImport, h: DocHost, segIds: Ids, syn: Syntax)
    requires HostUsable(h, segIds, syn) && SubnetIds(segIds, s.db.subnets)
    ensures var s', k := HostStep(s, h, segIds, syn), TargetHost(h, segIds);
            && k in s'.db.hosts && s'.db.hosts == s.db.hosts[k := s'.db.hosts[k]]
            && s'.db == s.db.(hosts := s'.db.hosts, nextHost := s'.db.nextHost)
            && s'.ids == s.ids[h.id := s'.db.hosts[k].id]
            && (k in s.db.hosts ==>
                  s'.db.hosts[k] == PatchHost(s.db.hosts[k], HostPatch(true, h.mac, h.hostname, h.vendor)))
            && (k !in s.db.hosts ==>
                  PatchHost(s'.db.hosts[k], HostPatch(true, h.mac, h.hostname, h.vendor)) == s'.db.hosts[k])
  {
    assert HasSubnet(s.db.subnets, segIds[h.segmentId]);
    hide HasSubnet;
  }

  /** The last entry only touches its own key. */
  lemma LastTouch(entries: seq<DocHost>, segIds: Ids, syn: Syntax)
    requires entries != [] && HostUsable(entries[|entries| - 1], segIds, syn)
    ensures var init, h := entries[..|entries| - 1], entries[|entries| - 1];
            var k := TargetHost(h, segIds);
            var p := HostPatchAt(init, segIds, syn, k);
            && (forall l | l != k :: HostPatchAt(entries, segIds, syn, l) == HostPatchAt(init, segIds, syn, l))
            && HostPatchAt(entries, segIds, syn, k) ==
               HostPatch(true, Fill(p.mac, h.mac), Fill(p.hostname, h.hostname), Fill(p.vendor, h.vendor))
  {
    hide Fill;
  }

  lemma AbsorbsMore(row: HostRow, p: HostPatch, h: DocHost)
    requires PatchHost(row, p) == row
    ensures var row' := PatchHost(row, HostPatch(true, h.mac, h.hostname, h.vendor));
            && row' == PatchHost(row', HostPatch(true, Fill(p.mac, h.mac), Fill(p.hostname, h.hostname),
                                                 Fill(p.vendor, h.vendor)))
            && row'.id == row.id
  {
  }

  lemma HostStepIsPatch(s: HostImport, h: DocHost, segIds: Ids, syn: Syntax)
    requires HostUsable(h, segIds, syn) && TargetHost(h, segIds) in s.db.hosts
    ensures var k := TargetHost(h, segIds);
            var row := s.db.hosts[k];
            HostStep(s, h, segIds, syn) == HostImport(
              s.db.(hosts := s.db.hosts[k := PatchHost(row, HostPatch(true, h.mac, h.hostname, h.vendor))]),
              s.ids[h.id := row.id], s.added)
  {
  }

  lemma PatchHostThen(row: HostRow, p: HostPatch, h: DocHost)
    ensures PatchHost(PatchHost(row, p), HostPatch(true, h.mac, h.hostname, h.vendor))
         == PatchHost(row, HostPatch(true, Fill(p.mac, h.mac), Fill(p.hostname, h.hostname), Fill(p.vendor, h.vendor)))
    ensures PatchHost(row, p).id == row.id && PatchHost(row, HostPatch(false, "", "", "")) == row
  {
  }

  /** Replaying hosts that all exist only fills rows and counts none as new. */
  lemma {:induction false} ReplayHosts(db: Db, entries: seq<DocHost>, segIds: Ids, syn: Syntax)
    requires forall k | HostPatchAt(entries, segIds, syn, k).touched :: k in db.hosts
    ensures var s := ImportHosts(db, entries, segIds, syn);
            && s.db == db.(hosts := s.db.hosts) && s.db.hosts.Keys == db.hosts.Keys
            && (forall k | k in db.hosts ::
                  s.db.hosts[k] == PatchHost(db.hosts[k], HostPatchAt(entries, segIds, syn, k)))
            && s.ids == ResolveHosts(entries, segIds, syn, db.hosts)
            && s.added == 0
  {
    hide HostStep, PatchHost;
    if entries == [] {
      forall k | k in db.hosts ensures PatchHost(db.hosts[k], HostPatch(false, "", "", "")) == db.hosts[k] {
        PatchHostThen(db.hosts[k], HostPatch(false, "", "", ""), DocHost("", "", "", "", "", "", ""));
      }
    } else {
      var init, h := entries[..|entries| - 1], entries[|entries| - 1];
      forall k | HostPatchAt(init, segIds, syn, k).touched ensures k in db.hosts {
        assert HostPatchAt(entries, segIds, syn, k).touched;
      }
      ReplayHosts(db, init, segIds, syn);
      var s := ImportHosts(db, init, segIds, syn);
      if HostUsable(h, segIds, syn) {
        var k := TargetHost(h, segIds);
        assert HostPatchAt(entries, segIds, syn, k).touched;
        HostStepIsPatch(s, h, segIds, syn);
        PatchHostThen(db.hosts[k], HostPatchAt(init, segIds, syn, k), h);
      } else {
        UnusableHost(s, h, segIds, syn);
      }
    }
  }

  lemma UnusableHost(s: HostImport, h: DocHost, segIds: Ids, syn: Syntax)
    requires !HostUsable(h, segIds, syn)
    ensures HostStep(s, h, segIds, syn) == s
  {
  }

  // ---- ports ----

  /** All the entries of one port: the last service, the last non-empty banner and version. */
  datatype PortPatch = PortPatch(touched: bool, service: string, banner: string, version: string)

  function PatchPort(row: PortRow, p: PortPatch): PortRow {
    if p.touched then Observed(row, p.service, p.banner, "", p.version) else row
  }

  function PortPatchAt(ports: seq<DocPort>, hostIds: Ids, k: PortKey): PortPatch {
    if ports == [] then PortPatch(false, "", "", "")
    else
      var q, p := PortPatchAt(ports[..|ports| - 1], hostIds, k), ports[|ports| - 1];
      if PortUsable(p, hostIds) && TargetPort(p, hostIds) == k then
        PortPatch(true, p.service, Over(q.banner, p.notes), Over(q.version, p.version))
      else q
  }

  lemma {:induction false} UntouchedPort(ports: seq<DocPort>, hostIds: Ids, k: PortKey)
    ensures !PortPatchAt(ports, hostIds, k).touched ==> PortPatchAt(ports, hostIds, k) == PortPatch(false, "", "", "")
  {
    if ports != [] {
      UntouchedPort(ports[..|ports| - 1], hostIds, k);
    }
  }

  ghost predicate PortsAbsorbed(rows: map<PortKey, PortRow>, entries: seq<DocPort>, hostIds: Ids) {
    forall k :: PortPatchAt(entries, hostIds, k).touched ==>
      k in rows && PatchPort(rows[k], PortPatchAt(entries, hostIds, k)) == rows[k]
  }

  ghost predicate HostIds(ids: Ids, hosts: map<HostKey, HostRow>) {
    forall i | i in ids :: HasHost(hosts, ids[i])
  }

  lemma {:induction false} FirstPorts(db: Db, entries: seq<DocPort>, hostIds: Ids)
    requires HostIds(hostIds, db.hosts)
    ensures var s := ImportPorts(db, entries, hostIds);
            && s.db == db.(ports := s.db.ports)
            && (forall k | k in db.ports :: k in s.db.ports)
            && PortsAbsorbed(s.db.ports, entries, hostIds)
  {
    if entries != [] {
      var init, p := entries[..|entries| - 1], entries[|entries| - 1];
      FirstPorts(db, init, hostIds);
      var s := ImportPorts(db, init, hostIds);
      var s' := PortStep(s, p, hostIds);
      if PortUsable(p, hostIds) {
        var k := TargetPort(p, hostIds);
        UntouchedPort(init, hostIds, k);
        assert HasHost(s.db.hosts, k.host);
        forall l | PortPatchAt(entries, hostIds, l).touched
          ensures l in s'.db.ports && PatchPort(s'.db.ports[l], PortPatchAt(entries, hostIds, l)) == s'.db.ports[l]
        {
          if l != k {
            assert PortPatchAt(init, hostIds, l).touched && s'.db.ports[l] == s.db.ports[l];
          }
        }
      } else {
        forall k ensures PortPatchAt(entries, hostIds, k) == PortPatchAt(init, hostIds, k) {}
      }
    }
  }

  lemma {:induction false} ReplayPorts(db: Db, entries: seq<DocPort>, hostIds: Ids)
    requires forall k | PortPatchAt(entries, hostIds, k).touched :: k in db.ports
    ensures var s := ImportPorts(db, entries, hostIds);
            && s.db == db.(ports := s.db.ports) && s.db.ports.Keys == db.ports.Keys
            && (forall k | k in db.ports :: s.db.ports[k] == PatchPort(db.ports[k], PortPatchAt(entries, hostIds, k)))
            && s.added == 0
  {
    if entries != [] {
      var init, p := entries[..|entries| - 1], entries[|entries| - 1];
      forall k | PortPatchAt(init, hostIds, k).touched ensures k in db.ports {
        assert PortPatchAt(entries, hostIds, k).touched;
      }
      ReplayPorts(db, init, hostIds);
      if PortUsable(p, hostIds) {
        UntouchedPort(init, hostIds, TargetPort(p, hostIds));
        assert PortPatchAt(entries, hostIds, TargetPort(p, hostIds)).touched;
      }
    }
  }

  // ---- the whole document ----

  lemma {:induction false} HostIdsResolve(entries: seq<DocHost>, segIds: Ids, syn: Syntax, hosts: map<HostKey, HostRow>)
    ensures HostIds(ResolveHosts(entries, segIds, syn, hosts), hosts)
  {
    if entries != [] {
      HostIdsResolve(entries[..|entries| - 1], segIds, syn, hosts);
    }
  }

  /** What the first import leaves behind: a sound store with nothing left for the document to change. */
  ghost predicate Absorbed(db: Db, doc: Document, syn: Syntax, full: bool) {
    var segIds := ResolveSegments(doc.segments, syn, db.subnets);
    var hostIds := ResolveHosts(doc.hosts, segIds, syn, db.hosts);
    && Sound(db)
    && SegmentsAbsorbed(db.subnets, doc.segments, syn, full)
    && HostsAbsorbed(db.hosts, doc.hosts, segIds, syn)
    && PortsAbsorbed(db.ports, doc.ports, hostIds)
  }

  lemma ImportAbsorbs(db: Db, doc: Document, syn: Syntax, full: bool)
    requires Sound(db)
    ensures var once := ImportDocument(db, doc, syn, full);
            && Absorbed(once.db, doc, syn, full)
            && once.segIds == ResolveSegments(doc.segments, syn, once.db.subnets)
            && once.hostIds == ResolveHosts(doc.hosts, once.segIds, syn, once.db.hosts)
  {
    hide Sound, SegmentsAbsorbed, HostsAbsorbed, PortsAbsorbed, ImportSegments, ImportHosts, ImportPorts;
    var (db1, segIds) := ImportSegments(db, doc.segments, syn, full);
    var h := ImportHosts(db1, doc.hosts, segIds, syn);
    FirstSegments(db, doc.segments, syn, full);
    SegmentIdsResolve(db, doc.segments, syn, full);
    FirstHosts(db1, doc.hosts, segIds, syn);
    HostIdsResolve(doc.hosts, segIds, syn, h.db.hosts);
    FirstPorts(h.db, doc.ports, h.ids);
    ImportedSound(db1, doc, segIds, syn);
  }

  /** An absorbed document is a no-op, and resolves its ids from the rows that are there. */
  lemma AbsorbedIsNoOp(db: Db, doc: Document, syn: Syntax, full: bool)
    requires Absorbed(db, doc, syn, full)
    ensures var segIds := ResolveSegments(doc.segments, syn, db.subnets);
            ImportDocument(db, doc, syn, full) ==
              Imported(db, segIds, ResolveHosts(doc.hosts, segIds, syn, db.hosts), 0, 0)
  {
    hide Sound, ImportSegments, ImportHosts, ImportPorts, PatchSubnet, PatchHost, PatchPort;
    ReplaySegments(db, doc.segments, syn, full);
    UntouchedSegments(db.subnets, doc.segments, syn, full);
    var (db1, segIds) := ImportSegments(db, doc.segments, syn, full);
    assert db1.subnets == db.subnets;
    ReplayHosts(db, doc.hosts, segIds, syn);
    UntouchedHosts(db.hosts, doc.hosts, segIds, syn);
    var h := ImportHosts(db, doc.hosts, segIds, syn);
    assert h.db.hosts == db.hosts;
    ReplayPorts(db, doc.ports, h.ids);
    UntouchedPorts(db.ports, doc.ports, h.ids);
    assert ImportPorts(db, doc.ports, h.ids).db.ports == db.ports;
  }

  /** Main: for any document, duplicates and conflicts included, a second import changes no row,
      adds nothing, and resolves the same ids. Both for the network-map and the system form. */
  lemma ImportTwiceIsOnce(db: Db, doc: Document, syn: Syntax, full: bool)
    requires Sound(db)
    ensures var once := ImportDocument(db, doc, syn, full);
            ImportDocument(once.db, doc, syn, full) == once.(newHosts := 0, newPorts := 0)
  {
    hide Absorbed;
    ImportAbsorbs(db, doc, syn, full);
    AbsorbedIsNoOp(ImportDocument(db, doc, syn, full).db, doc, syn, full);
  }

  lemma UntouchedHosts(hosts: map<HostKey, HostRow>, entries: seq<DocHost>, segIds: Ids, syn: Syntax)
    requires HostsAbsorbed(hosts, entries, segIds, syn)
    ensures forall k | k in hosts :: PatchHost(hosts[k], HostPatchAt(entries, segIds, syn, k)) == hosts[k]
  {
    forall k | k in hosts ensures PatchHost(hosts[k], HostPatchAt(entries, segIds, syn, k)) == hosts[k] {
      NoTouchNoText(entries, segIds, syn, k);
    }
  }

  lemma UntouchedPorts(rows: map<PortKey, PortRow>, entries: seq<DocPort>, hostIds: Ids)
    requires PortsAbsorbed(rows, entries, hostIds)
    ensures forall k | k in rows :: PatchPort(rows[k], PortPatchAt(entries, hostIds, k)) == rows[k]
  {
  }

  lemma UntouchedSegments(subnets: map<string, SubnetRow>, segs: seq<Segment>, syn: Syntax, full: bool)
    requires SegmentsAbsorbed(subnets, segs, syn, full)
    ensures forall c | c in subnets :: PatchSubnet(subnets[c], SubnetPatchAt(segs, syn, c), full) == subnets[c]
  {
  }

  /** Host and port imports are ordinary store operations, so they keep the tables sound. */
  lemma ImportedSound(db: Db, doc: Document, segIds: Ids, syn: Syntax)
    requires Sound(db)
    ensures var h := ImportHosts(db, doc.hosts, segIds, syn);
            Sound(h.db) && Sound(ImportPorts(h.db, doc.ports, h.ids).db)
  {
    hide *;
    HostImportSound(db, doc.hosts, segIds, syn);
    var h := ImportHosts(db, doc.hosts, segIds, syn);
    PortImportSound(h.db, doc.ports, h.ids);
  }

  lemma {:induction false} HostImportSound(db: Db, entries: seq<DocHost>, segIds: Ids, syn: Syntax)
    requires Sound(db)
    ensures Sound(ImportHosts(db, entries, segIds, syn).db)
  {
    hide Sound;
    if entries != [] {
      var init, h := entries[..|entries| - 1], entries[|entries| - 1];
      HostImportSound(db, init, segIds, syn);
      if HostUsable(h, segIds, syn) {
        var k := TargetHost(h, segIds);
        StepSound(ImportHosts(db, init, segIds, syn).db,
                  RestoreHost(k.subnet, k.ip, h.mac, h.hostname, h.vendor, h.notes), 1);
      }
    }
  }

  lemma {:induction false} PortImportSound(db: Db, entries: seq<DocPort>, hostIds: Ids)
    requires Sound(db)
    ensures Sound(ImportPorts(db, entries, hostIds).db)
  {
    hide Sound;
    if entries != [] {
      var init, p := entries[..|entries| - 1], entries[|entries| - 1];
      PortImportSound(db, init, hostIds);
      if PortUsable(p, hostIds) {
        StepSound(ImportPorts(db, init, hostIds).db,
                  SeePort(TargetPort(p, hostIds), p.service, p.notes, "", p.version), 1);
      }
    }
  }

  // ---- what an import never does ----

  /** Everything but an empty MAC, hostname or vendor is as it was. */
  ghost predicate OnlyFilled(h: HostRow, h': HostRow) {
    && h' == h.(mac := h'.mac, hostname := h'.hostname, vendor := h'.vendor)
    && (h.mac != "" ==> h'.mac == h.mac) && (h.hostname != "" ==> h'.hostname == h.hostname)
    && (h.vendor != "" ==> h'.vendor == h.vendor)
  }

  lemma {:induction false} HostsOnlyFilled(db: Db, entries: seq<DocHost>, segIds: Ids, syn: Syntax, k: HostKey)
    ensures var db' := ImportHosts(db, entries, segIds, syn).db;
            && (k in db.hosts ==> k in db'.hosts && OnlyFilled(db.hosts[k], db'.hosts[k]))
            && (k !in db.hosts && k in db'.hosts ==> db'.hosts[k].status == Unknown && !db'.hosts[k].acked)
  {
    if entries != [] {
      HostsOnlyFilled(db, entries[..|entries| - 1], segIds, syn, k);
    }
  }

  lemma {:induction false} PortsNeverClosed(db: Db, entries: seq<DocPort>, hostIds: Ids, k: PortKey)
    ensures var db' := ImportPorts(db, entries, hostIds).db;
            && db'.hosts == db.hosts
            && (k in db.ports ==> k in db'.ports && (db.ports[k].open ==> db'.ports[k].open))
            && (k !in db.ports && k in db'.ports ==> db'.ports[k].open)
  {
    if entries != [] {
      PortsNeverClosed(db, entries[..|entries| - 1], hostIds, k);
    }
  }

  /** Main: importing any document into any store takes no host up or down, changes no text of a host that
      is not empty, and closes or loses no port; hosts it brings are unknown and ports it brings are open. */
  lemma ImportOnlyAdds(db: Db, doc: Document, syn: Syntax, full: bool, h: HostKey, p: PortKey)
    ensures var db' := ImportDocument(db, doc, syn, full).db;
            && (h in db.hosts ==> h in db'.hosts && OnlyFilled(db.hosts[h], db'.hosts[h]))
            && (h !in db.hosts && h in db'.hosts ==> db'.hosts[h].status == Unknown)
            && (p in db.ports ==> p in db'.ports && (db.ports[p].open ==> db'.ports[p].open))
            && (p !in db.ports && p in db'.ports ==> db'.ports[p].open)
  {
    hide ImportSegments, ImportHosts, ImportPorts, SubnetIds;
    SegmentIdsResolve(db, doc.segments, syn, full);
    var (db1, segIds) := ImportSegments(db, doc.segments, syn, full);
    HostsOnlyFilled(db1, doc.hosts, segIds, syn, h);
    var s := ImportHosts(db1, doc.hosts, segIds, syn);
    HostsKeepSubnets(db1, doc.hosts, segIds, syn);
    PortsNeverClosed(s.db, doc.ports, s.ids, p);
  }

  // ---- what an import overwrites ----

  lemma PatchPortThen(row: PortRow, q: PortPatch, p: DocPort)
    requires q.touched || q == PortPatch(false, "", "", "")
    ensures Observed(PatchPort(row, q), p.service, p.notes, "", p.version)
         == PatchPort(row, PortPatch(true, p.service, Over(q.banner, p.notes), Over(q.version, p.version)))
  {
  }

  /** The row under `k` takes all the entries that name it as one patch, whether or not it was stored. */
  ghost predicate PortPatched(db: Db, db': Db, k: PortKey, p: PortPatch) {
    && (k in db'.ports <==> k in db.ports || p.touched)
    && (k in db'.ports ==> db'.ports[k] == PatchPort(if k in db.ports then db.ports[k] else NoPort, p))
  }

  lemma PortPatchStep(db: Db, s: PortImport, entries: seq<DocPort>, hostIds: Ids, k: PortKey)
    requires entries != [] && PortPatched(db, s.db, k, PortPatchAt(entries[..|entries| - 1], hostIds, k))
    requires HostIds(hostIds, s.db.hosts)
    ensures PortPatched(db, PortStep(s, entries[|entries| - 1], hostIds).db, k, PortPatchAt(entries, hostIds, k))
  {
    var init, p := entries[..|entries| - 1], entries[|entries| - 1];
    if PortUsable(p, hostIds) && TargetPort(p, hostIds) == k {
      assert HasHost(s.db.hosts, k.host);
      UntouchedPort(init, hostIds, k);
      hide PatchPort, Observed, HasHost;
      PatchPortThen(if k in db.ports then db.ports[k] else NoPort, PortPatchAt(init, hostIds, k), p);
      NewPortIsPatch(p);
    }
  }

  lemma {:induction false} ImportPatchesPorts(db: Db, entries: seq<DocPort>, hostIds: Ids, k: PortKey)
    requires HostIds(hostIds, db.hosts)
    ensures PortPatched(db, ImportPorts(db, entries, hostIds).db, k, PortPatchAt(entries, hostIds, k))
  {
    if entries != [] {
      var init := entries[..|entries| - 1];
      ImportPatchesPorts(db, init, hostIds, k);
      PortsNeverClosed(db, init, hostIds, k);
      PortPatchStep(db, ImportPorts(db, init, hostIds), entries, hostIds, k);
    }
  }

  lemma NewPortIsPatch(p: DocPort)
    ensures PortRow(true, p.service, p.notes, "", p.version) == Observed(NoPort, p.service, p.notes, "", p.version)
    ensures PatchPort(NoPort, PortPatch(false, "", "", "")) == NoPort
  {
  }

  /** A stored row already says everything the entries that name it say last. */
  predicate Agrees(row: PortRow, p: PortPatch) {
    && row.open && row.service == p.service
    && (p.banner == "" || p.banner == row.banner) && (p.version == "" || p.version == row.version)
  }

  /** Main: after importing any document into any store, every port row is its old value, or the blank one,
      under the patch of the entries that name it. It is unchanged iff no entry names it or it was open
      and already held their last service and their last non-empty banner and version. */
  lemma ImportOverwritesPorts(db: Db, doc: Document, syn: Syntax, full: bool, k: PortKey)
    ensures var r := ImportDocument(db, doc, syn, full);
            var p := PortPatchAt(doc.ports, r.hostIds, k);
            && PortPatched(db, r.db, k, p)
            && (k in db.ports ==> (r.db.ports[k] == db.ports[k] <==> p.touched ==> Agrees(db.ports[k], p)))
  {
    hide ImportSegments, ImportHosts, ImportPorts, SubnetIds, HostIds, HostsAbsorbed, PortPatchAt;
    var (db1, segIds) := ImportSegments(db, doc.segments, syn, full);
    var h := ImportHosts(db1, doc.hosts, segIds, syn);
    SegmentIdsResolve(db, doc.segments, syn, full);
    FirstHosts(db1, doc.hosts, segIds, syn);
    HostIdsResolve(doc.hosts, segIds, syn, h.db.hosts);
    ImportPatchesPorts(h.db, doc.ports, h.ids, k);
  }

  /** A document of one entry of each kind takes one step of each kind. */
  lemma OneOfEach(db: Db, seg: Segment, h: DocHost, p: DocPort, syn: Syntax, full: bool)
    ensures var db1 := SegmentStep(db, seg, syn, full);
            var segIds := SegmentId(db1, map[], seg, syn);
            var s := HostStep(HostImport(db1, map[], 0), h, segIds, syn);
            ImportDocument(db, Document([seg], [h], [p]), syn, full).db == PortStep(PortImport(s.db, 0), p, s.ids).db
  {
    hide SegmentStep, SegmentId, HostStep, PortStep;
    var segs, hosts, ports := [seg], [h], [p];
    assert segs[..|segs| - 1] == [] && hosts[..|hosts| - 1] == [] && ports[..|ports| - 1] == [];
    var (db1, segIds) := ImportSegments(db, segs, syn, full);
    assert ImportSegments(db, segs[..|segs| - 1], syn, full) == (db, map[]);
    assert ImportHosts(db1, hosts[..|hosts| - 1], segIds, syn) == HostImport(db1, map[], 0);
    var s := ImportHosts(db1, hosts, segIds, syn);
    assert ImportPorts(s.db, ports[..|ports| - 1], s.ids) == PortImport(s.db, 0);
  }

  /** One scanned host with a closed port, and a document of one entry that names the port. */
  const Scanned := Db(
    map["10.0.0.0/24" := SubnetRow(1, "lan", Auto, "", true, false)],
    map[HostKey(1, "10.0.0.5") := HostRow(1, "", "", "", Up, Auto, "", 0, false, false)],
    map[PortKey(1, 22, "tcp") := PortRow(false, "ssh", "banner of a live scan", "OpenSSH", "8.9p1")], map[], 2, 2, 1)

  const Older := Document(
    [Segment("s", "lan", "10.0.0.0/24", false, true)], [DocHost("h", "s", "", "10.0.0.5", "", "", "")],
    [DocPort("h", "tcp", 22, "open", "", "1", "old")])

  /** An import that re-opens the port a live scan closed and overwrites its service, banner and version. */
  lemma ImportCanOverwrite()
    ensures Sound(Scanned)
    ensures ImportDocument(Scanned, Older, Syntax(_ => true, _ => true), false).db.ports
         == map[PortKey(1, 22, "tcp") := PortRow(true, "", "old", "OpenSSH", "1")]
  {
    var syn := Syntax(_ => true, _ => true);
    var seg, h, p := Older.segments[0], Older.hosts[0], Older.ports[0];
    OneOfEach(Scanned, seg, h, p, syn, false);
    assert HasSubnet(Scanned.subnets, 1) by { assert "10.0.0.0/24" in Scanned.subnets; }
    assert HasHost(Scanned.hosts, 1) by { assert HostKey(1, "10.0.0.5") in Scanned.hosts; }
    assert SegmentStep(Scanned, seg, syn, false) == Scanned;
    var segIds := SegmentId(Scanned, map[], seg, syn);
    assert HostStep(HostImport(Scanned, map[], 0), h, segIds, syn) == HostImport(Scanned, map["h" := 1], 0);
  }
}
