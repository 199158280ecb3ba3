/** One port scan of a host, in any completion order of its probes, and what runs of scans do to
    the port table. */
module PortScan {
  import opened Options
  import opened Tables
  import opened Listings
  import opened Runs
  import opened Stores
  import opened Reflag

  /** One probe's outcome, listed in the order the probing goroutines reach the store. */
  datatype Probe = Probe(port: int, open: bool, banner: string)

  function Probed(probes: seq<Probe>): set<int> {
    set p | p in probes :: p.port
  }

  function FoundOpen(probes: seq<Probe>): set<int> {
    set p | p in probes && p.open :: p.port
  }

  function Tcp(host: nat, port: int): PortKey {
    PortKey(host, port, "tcp")
  }

  function RecordProbe(db: Db, host: nat, p: Probe, guess: int -> string): Db {
    if p.open then Recorded(db, Tcp(host, p.port), guess(p.port), p.banner, "", "") else db
  }

  function RecordProbes(db: Db, host: nat, probes: seq<Probe>, guess: int -> string): Db {
    if probes == [] then db
    else RecordProbe(RecordProbes(db, host, probes[..|probes| - 1], guess), host, probes[|probes| - 1], guess)
  }

  /** What recording the probes announces, in order. */
  ghost function ProbeEvents(db: Db, host: nat, probes: seq<Probe>, guess: int -> string): seq<Event> {
    if probes == [] then []
    else
      var init, p := probes[..|probes| - 1], probes[|probes| - 1];
      ProbeEvents(db, host, init, guess)
        + if p.open then RecordEvents(RecordProbes(db, host, init, guess), Tcp(host, p.port)) else []
  }

  ghost function ClosedEvents(order: seq<PortKey>): seq<Event> {
    seq(|order|, i requires 0 <= i < |order| => PortClosed(order[i].host, order[i].port))
  }

  function ScanPorts(db: Db, host: nat, probes: seq<Probe>, guess: int -> string): Db {
    SweepPorts(RecordProbes(db, host, probes, guess), host, Probed(probes), FoundOpen(probes))
  }

  lemma OneMoreProbe(probes: seq<Probe>, i: nat)
    requires i < |probes|
    ensures probes[..i + 1] == probes[..i] + [probes[i]] && probes[..i + 1][..i] == probes[..i]
  {
  }

  /** The recording goroutines, in the order they reach the store. */
  method RunProbes(st: Store, host: nat, probes: seq<Probe>, guess: int -> string)
    returns (open: set<int>, probed: set<int>, events: seq<Event>)
    modifies st
    ensures st.Snapshot() == RecordProbes(old(st.Snapshot()), host, probes, guess)
    ensures open == FoundOpen(probes) && probed == Probed(probes)
    ensures events == ProbeEvents(old(st.Snapshot()), host, probes, guess)
    ensures st.scans == old(st.scans)
  {
    hide Recorded, RecordEvents;
    open, probed, events := {}, {}, [];
    ghost var start := st.Snapshot();
    for i := 0 to |probes|
      invariant st.Snapshot() == RecordProbes(start, host, probes[..i], guess) && st.scans == old(st.scans)
      invariant events == ProbeEvents(start, host, probes[..i], guess)
      invariant open == FoundOpen(probes[..i]) && probed == Probed(probes[..i])
    {
      var p := probes[i];
      OneMoreProbe(probes, i);
      probed := probed + {p.port};
      if p.open {
        var more := RecordOpenPort(st, host, p.port, guess(p.port), p.banner, "", "");
        events := events + more;
        open := open + {p.port};
      } else {
        assert events + [] == events;
      }
    }
    assert probes[..|probes|] == probes;
  }

  method AnnounceClosed(host: nat, closed: seq<int>) returns (events: seq<Event>)
    ensures |events| == |closed| && forall i | 0 <= i < |closed| :: events[i] == PortClosed(host, closed[i])
  {
    events := [];
    for i := 0 to |closed|
      invariant |events| == i && forall j | 0 <= j < i :: events[j] == PortClosed(host, closed[j])
    {
      events := events + [PortClosed(host, closed[i])];
    }
  }

  /** The probes record, each new port clearing the host's acknowledgement; then one sweep closes what was
      probed and not found. Each row that is new is announced once, each row that was closed is announced, and
      nothing is announced besides, except that a new row may raise its host as a priority. */
  method ScanPortRange(st: Store, host: nat, probes: seq<Probe>, guess: int -> string)
    returns (open: set<int>, events: seq<Event>, ghost order: seq<PortKey>)
    requires HasHost(st.hosts, host)
    modifies st
    ensures st.Snapshot() == ScanPorts(old(st.Snapshot()), host, probes, guess)
    ensures open == FoundOpen(probes)
    ensures Lists(order, set k | k in old(st.ports) && k in st.ports && old(st.ports)[k].open && !st.ports[k].open)
    ensures events == ProbeEvents(old(st.Snapshot()), host, probes, guess) + ClosedEvents(order)
    ensures forall p :: multiset(events)[NewPort(host, p)] ==
              if PortKey(host, p, "tcp") in st.ports && PortKey(host, p, "tcp") !in old(st.ports) then 1 else 0
    ensures forall p :: PortClosed(host, p) in events <==>
              exists k :: k in old(st.ports) && k in st.ports && k.host == host && k.port == p &&
                old(st.ports)[k].open && !st.ports[k].open
    ensures forall e | e in events ::
              e.host == host && (e.PriorityReflag? ==>
                PortKey(host, e.port, "tcp") in st.ports && PortKey(host, e.port, "tcp") !in old(st.ports))
    ensures st.scans == old(st.scans) + [host]
  {
    hide RecordProbes, ProbeEvents, FoundOpen, Probed, SweepPorts, Distinct, HasHost;
    ghost var start := st.Snapshot();
    var probed;
    open, probed, events := RunProbes(st, host, probes, guess);
    ghost var mid := st.ports;
    var closed;
    closed, order := st.SweepClosedPorts(host, probed, open);
    ClosedSinceStart(start, host, probes, guess);
    SweptRowsAreTheHosts(start, host, probes, guess);
    assert forall i | 0 <= i < |order| :: order[i] in order;
    var more := AnnounceClosed(host, closed);
    assert more == ClosedEvents(order);
    ghost var found := events;
    events := events + more;
    NewAnnounced(start, host, probes, guess);
    SweepKeepsKeys(start, host, probes, guess);
    ClosedAnnounced(start.ports, st.ports, host, order);
    Announced(start, st.ports, host, found, more);
  }

  /** What the probes announce: each new row once, and priorities for new rows only. */
  ghost predicate AnnouncesNew(events: seq<Event>, host: nat, before: map<PortKey, PortRow>,
                               after: map<PortKey, PortRow>)
  {
    && (forall p ::
          multiset(events)[NewPort(host, p)] == if Tcp(host, p) in after && Tcp(host, p) !in before then 1 else 0)
    && (forall e | e in events ::
          !e.PortClosed? && e.host == host && Tcp(host, e.port) in after && Tcp(host, e.port) !in before)
  }

  lemma RecordAnnounces(db: Db, p: Probe, host: nat, guess: int -> string)
    requires HasHost(db.hosts, host)
    ensures AnnouncesNew(if p.open then RecordEvents(db, Tcp(host, p.port)) else [], host, db.ports,
                         RecordProbe(db, host, p, guess).ports)
  {
    hide Acknowledged, HasHost;
  }

  lemma AnnouncesJoin(a: seq<Event>, b: seq<Event>, host: nat, before: map<PortKey, PortRow>,
                      mid: map<PortKey, PortRow>, after: map<PortKey, PortRow>)
    requires AnnouncesNew(a, host, before, mid) && AnnouncesNew(b, host, mid, after)
    requires before.Keys <= mid.Keys <= after.Keys
    ensures AnnouncesNew(a + b, host, before, after)
  {
    assert multiset(a + b) == multiset(a) + multiset(b);
  }

  lemma {:induction false} NewAnnounced(db: Db, host: nat, probes: seq<Probe>, guess: int -> string)
    requires HasHost(db.hosts, host)
    ensures AnnouncesNew(ProbeEvents(db, host, probes, guess), host, db.ports,
                         RecordProbes(db, host, probes, guess).ports)
    ensures db.ports.Keys <= RecordProbes(db, host, probes, guess).ports.Keys
  {
    RecordedRows(db, host, probes, guess);
    if probes != [] {
      var init, p := probes[..|probes| - 1], probes[|probes| - 1];
      NewAnnounced(db, host, init, guess);
      RecordedRows(db, host, init, guess);
      ClearKeepsHosts(db, host);
      hide AnnouncesNew, RecordEvents, HasHost, EditHost, FoundOpen, RecordProbe;
      var mid := RecordProbes(db, host, init, guess);
      RecordAnnounces(mid, p, host, guess);
      RecordedOne(mid, host, p, guess);
      AnnouncesJoin(ProbeEvents(db, host, init, guess), if p.open then RecordEvents(mid, Tcp(host, p.port)) else [],
                    host, db.ports, mid.ports, RecordProbes(db, host, probes, guess).ports);
    }
  }

  lemma SweepKeepsKeys(db: Db, host: nat, probes: seq<Probe>, guess: int -> string)
    ensures ScanPorts(db, host, probes, guess).ports.Keys == RecordProbes(db, host, probes, guess).ports.Keys
  {
    hide RecordProbes, Probed, FoundOpen;
  }

  lemma ClosedAnnounced(before: map<PortKey, PortRow>, after: map<PortKey, PortRow>, host: nat, order: seq<PortKey>)
    requires Lists(order, set k | k in before && k in after && before[k].open && !after[k].open)
    requires forall i | 0 <= i < |order| :: order[i].host == host
    ensures forall e :: e in ClosedEvents(order) <==>
              e.PortClosed? && e.host == host && WasClosed(before, after, host, e.port)
  {
    forall e ensures e in ClosedEvents(order) <==>
      e.PortClosed? && e.host == host && WasClosed(before, after, host, e.port)
    {
      if e in ClosedEvents(order) {
        var i :| 0 <= i < |order| && ClosedEvents(order)[i] == e;
        assert order[i] in order;
      }
      if e.PortClosed? && e.host == host && WasClosed(before, after, host, e.port) {
        var k :| k in before && k in after && k.host == host && k.port == e.port && before[k].open && !after[k].open;
        assert k in order;
        var i :| 0 <= i < |order| && order[i] == k;
        assert ClosedEvents(order)[i] == e;
      }
    }
  }

  ghost predicate WasClosed(before: map<PortKey, PortRow>, after: map<PortKey, PortRow>, host: nat, port: int) {
    exists k :: k in before && k in after && k.host == host && k.port == port && before[k].open && !after[k].open
  }

  lemma Announced(db: Db, after: map<PortKey, PortRow>, host: nat, found: seq<Event>, closed: seq<Event>)
    requires AnnouncesNew(found, host, db.ports, after)
    requires forall e :: e in closed <==> e.PortClosed? && e.host == host && WasClosed(db.ports, after, host, e.port)
    ensures forall p :: multiset(found + closed)[NewPort(host, p)] ==
              if Tcp(host, p) in after && Tcp(host, p) !in db.ports then 1 else 0
    ensures forall p :: PortClosed(host, p) in found + closed <==> WasClosed(db.ports, after, host, p)
    ensures forall e | e in found + closed ::
              e.host == host && (e.PriorityReflag? ==> Tcp(host, e.port) in after && Tcp(host, e.port) !in db.ports)
  {
    assert multiset(found + closed) == multiset(found) + multiset(closed);
    forall p ensures multiset(closed)[NewPort(host, p)] == 0 {
      assert NewPort(host, p) !in closed;
    }
    hide WasClosed;
  }

  /** The rows the sweep closes are those that were open before the scan. */
  lemma ClosedSinceStart(db: Db, host: nat, probes: seq<Probe>, guess: int -> string)
    requires HasHost(db.hosts, host)
    ensures var mid, after := RecordProbes(db, host, probes, guess).ports, ScanPorts(db, host, probes, guess).ports;
            (set k | k in mid && mid[k].open && !after[k].open) ==
            (set k | k in db.ports && k in after && db.ports[k].open && !after[k].open)
  {
    RecordedRows(db, host, probes, guess);
    hide RecordProbes;
  }

  lemma SweptRowsAreTheHosts(db: Db, host: nat, probes: seq<Probe>, guess: int -> string)
    ensures var mid, after := RecordProbes(db, host, probes, guess).ports, ScanPorts(db, host, probes, guess).ports;
            forall k | k in mid && mid[k].open && !after[k].open :: k.host == host
  {
    hide RecordProbes;
  }

  /** Some probe found a port the host had no row for. */
  ghost predicate NewFound(db: Db, host: nat, probes: seq<Probe>) {
    exists p | p in FoundOpen(probes) :: Tcp(host, p) !in db.ports
  }

  /** Before the sweep, exactly the host's TCP rows for open numbers have been touched, and they are open;
      the host has lost its acknowledgement if one of them is new. */
  lemma {:induction false} RecordedRows(db: Db, host: nat, probes: seq<Probe>, guess: int -> string)
    requires HasHost(db.hosts, host)
    ensures var mid := RecordProbes(db, host, probes, guess);
            && mid == db.(hosts := mid.hosts, ports := mid.ports)
            && mid.hosts == (if NewFound(db, host, probes) then EditHost(db, host, SetAck(false)).hosts else db.hosts)
            && (forall k | k in db.ports :: k in mid.ports)
            && (forall k | k in mid.ports && !(k.host == host && k.proto == "tcp" && k.port in FoundOpen(probes)) ::
                  k in db.ports && mid.ports[k] == db.ports[k])
            && (forall p | p in FoundOpen(probes) :: Tcp(host, p) in mid.ports && mid.ports[Tcp(host, p)].open)
  {
    if probes != [] {
      hide RecordProbe, HasHost, RecordedAs, EditHost;
      var init, last := probes[..|probes| - 1], probes[|probes| - 1];
      assert probes == init + [last];
      assert FoundOpen(probes) == FoundOpen(init) + if last.open then {last.port} else {};
      RecordedRows(db, host, init, guess);
      var before := RecordProbes(db, host, init, guess);
      ClearKeepsHosts(db, host);
      RecordedOne(before, host, last, guess);
      if last.open {
        var k := Tcp(host, last.port);
        RecordedIsOpen(before, k, RecordProbe(before, host, last, guess).ports[k], guess(last.port), last.banner);
      }
      hide FoundOpen;
    }
  }

  lemma ClearKeepsHosts(db: Db, host: nat)
    ensures forall id :: HasHost(EditHost(db, host, SetAck(false)).hosts, id) <==> HasHost(db.hosts, id)
    ensures EditHost(EditHost(db, host, SetAck(false)), host, SetAck(false)).hosts
            == EditHost(db, host, SetAck(false)).hosts
    ensures forall d: Db | d.hosts == db.hosts ::
              EditHost(d, host, SetAck(false)).hosts == EditHost(db, host, SetAck(false)).hosts
  {
    var hosts := EditHost(db, host, SetAck(false)).hosts;
    forall id ensures HasHost(hosts, id) <==> HasHost(db.hosts, id) {
      if k :| k in db.hosts && db.hosts[k].id == id { assert k in hosts && hosts[k].id == id; }
    }
  }

  lemma RecordedOne(db: Db, host: nat, p: Probe, guess: int -> string)
    requires HasHost(db.hosts, host)
    ensures var db', k := RecordProbe(db, host, p, guess), Tcp(host, p.port);
            && db' == db.(hosts := db'.hosts, ports := db'.ports)
            && db'.hosts == (if p.open && k !in db.ports then EditHost(db, host, SetAck(false)).hosts else db.hosts)
            && (forall l | l in db.ports :: l in db'.ports && (db.ports[l].open ==> db'.ports[l].open))
            && (forall l | l in db'.ports && !(p.open && l == k) :: l in db.ports && db'.ports[l] == db.ports[l])
            && (p.open ==> k in db'.ports && RecordedAs(db, k, db'.ports[k], guess(p.port), p.banner))
  {
  }

  lemma RecordedIsOpen(db: Db, k: PortKey, row: PortRow, service: string, banner: string)
    ensures RecordedAs(db, k, row, service, banner) ==> row.open
  {
  }

  predicate RecordedAs(db: Db, k: PortKey, row: PortRow, service: string, banner: string) {
    row == Observed(if k in db.ports then db.ports[k] else NoPort, service, banner, "", "")
  }

  /** Main: after a scan, a probed number's TCP row is open iff the number was found open; other
      protocols' rows can only be closed by it, never opened; no row is deleted, and of everything else
      only the host's acknowledgement changes: it is cleared if and only if a found port was new. */
  lemma ScanOutcome(db: Db, host: nat, probes: seq<Probe>, guess: int -> string, k: PortKey)
    requires HasHost(db.hosts, host)
    ensures var db' := ScanPorts(db, host, probes, guess);
            && db' == db.(hosts := db'.hosts, ports := db'.ports)
            && db'.hosts == (if NewFound(db, host, probes) then EditHost(db, host, SetAck(false)).hosts else db.hosts)
            && (k in db.ports ==> k in db'.ports)
            && (k in db'.ports && k !in db.ports ==> k.host == host && k.proto == "tcp" && k.port in FoundOpen(probes))
            && (k in db'.ports && k.host == host && k.port in Probed(probes) ==>
                  if k.proto == "tcp" then db'.ports[k].open <==> k.port in FoundOpen(probes)
                  else k in db.ports && (db'.ports[k].open <==> db.ports[k].open && k.port in FoundOpen(probes)))
            && (k in db.ports && !(k.host == host && k.port in Probed(probes)) ==> db'.ports[k] == db.ports[k])
            && (k.host == host && k.proto == "tcp" && k.port in FoundOpen(probes) ==> k in db'.ports)
  {
    RecordedRows(db, host, probes, guess);
    hide RecordProbes, EditHost, NewFound;
    assert FoundOpen(probes) <= Probed(probes);
    if k.host == host && k.proto == "tcp" && k.port in FoundOpen(probes) {
      assert k == Tcp(host, k.port);
    }
  }

  // ---- what a scan leaves in one row ----

  function OrBlank(row: Option<PortRow>): PortRow {
    if row.Some? then row.value else NoPort
  }

  /** The row under `k` after the probes have recorded what they found. */
  function ProbedRow(row: Option<PortRow>, k: PortKey, probes: seq<Probe>, guess: int -> string): Option<PortRow> {
    if probes == [] then row
    else
      var r, p := ProbedRow(row, k, probes[..|probes| - 1], guess), probes[|probes| - 1];
      if p.open && k == Tcp(k.host, p.port) then Some(Observed(OrBlank(r), guess(p.port), p.banner, "", "")) else r
  }

  /** And after the sweep that follows. */
  function ScanRow(row: Option<PortRow>, k: PortKey, probes: seq<Probe>, guess: int -> string): Option<PortRow> {
    var r := ProbedRow(row, k, probes, guess);
    if r.Some? && r.value.open && k.port in Probed(probes) && k.port !in FoundOpen(probes)
    then Some(r.value.(open := false)) else r
  }

  lemma ProbeWrites(db: Db, host: nat, p: Probe, guess: int -> string, k: PortKey)
    requires HasHost(db.hosts, host) && p.open
    ensures At(RecordProbe(db, host, p, guess).ports, k) ==
            if k == Tcp(host, p.port) then Some(Observed(OrBlank(At(db.ports, k)), guess(p.port), p.banner, "", ""))
            else At(db.ports, k)
  {
    hide HasHost;
  }

  lemma {:induction false} ProbedRows(db: Db, host: nat, probes: seq<Probe>, guess: int -> string, k: PortKey)
    requires HasHost(db.hosts, host)
    ensures At(RecordProbes(db, host, probes, guess).ports, k) ==
            if k.host == host then ProbedRow(At(db.ports, k), k, probes, guess) else At(db.ports, k)
    ensures HasHost(RecordProbes(db, host, probes, guess).hosts, host)
  {
    RecordedRows(db, host, probes, guess);
    ClearKeepsHosts(db, host);
    if probes != [] {
      var init, p := probes[..|probes| - 1], probes[|probes| - 1];
      ProbedRows(db, host, init, guess, k);
      hide HasHost, EditHost, FoundOpen, NewFound, Observed;
      var mid := RecordProbes(db, host, init, guess);
      if p.open { ProbeWrites(mid, host, p, guess, k); }
      hide Recorded;
    }
  }

  /** Main: after a scan of its host every row is `ScanRow` of what it was; the rows of other hosts are untouched. */
  lemma ScanRows(db: Db, host: nat, probes: seq<Probe>, guess: int -> string, k: PortKey)
    requires HasHost(db.hosts, host)
    ensures At(ScanPorts(db, host, probes, guess).ports, k) ==
            if k.host == host then ScanRow(At(db.ports, k), k, probes, guess) else At(db.ports, k)
  {
    ProbedRows(db, host, probes, guess, k);
    hide RecordProbes, ProbedRow, HasHost;
  }

  lemma {:induction false} ProbedRowShape(row: Option<PortRow>, k: PortKey, probes: seq<Probe>, guess: int -> string)
    ensures var r := ProbedRow(row, k, probes, guess);
            && (k.proto == "tcp" && k.port in FoundOpen(probes) ==> r.Some? && r.value.open)
            && (k.proto != "tcp" || k.port !in FoundOpen(probes) ==> r == row)
  {
    if probes != [] {
      var init, p := probes[..|probes| - 1], probes[|probes| - 1];
      assert probes == init + [p];
      assert FoundOpen(probes) == FoundOpen(init) + if p.open then {p.port} else {};
      ProbedRowShape(row, k, init, guess);
      hide FoundOpen;
    }
  }

  /** A row is not lost, is untouched if its number was not probed, and if it was probed on TCP it is open
      exactly if the number was found open. */
  lemma ScanRowShape(row: Option<PortRow>, k: PortKey, probes: seq<Probe>, guess: int -> string)
    ensures var r := ScanRow(row, k, probes, guess);
            && (row.Some? ==> r.Some?)
            && (k.port !in Probed(probes) ==> r == row)
            && (k.proto == "tcp" && k.port in Probed(probes) ==>
                  (r.Some? && r.value.open <==> k.port in FoundOpen(probes)))
  {
    ProbedRowShape(row, k, probes, guess);
    assert FoundOpen(probes) <= Probed(probes);
    hide FoundOpen, Probed, ProbedRow;
  }

  /** Some row of the host is in `db'` but not in `db`. */
  ghost predicate NewAt(db: Db, db': Db, host: nat) {
    exists k | k in db'.ports :: k !in db.ports && k.host == host
  }

  lemma NewAtJoins(a: Db, b: Db, c: Db, host: nat)
    requires a.ports.Keys <= b.ports.Keys <= c.ports.Keys
    ensures NewAt(a, c, host) <==> NewAt(a, b, host) || NewAt(b, c, host)
  {
  }

  lemma NewAtSame(a: Db, b: Db, c: Db, host: nat)
    requires forall k: PortKey | k.host == host :: k in b.ports <==> k in c.ports
    ensures NewAt(a, b, host) <==> NewAt(a, c, host)
  {
  }

  /** A scan clears its host's acknowledgement exactly if it leaves the host a new row. */
  lemma ScanAcks(db: Db, host: nat, probes: seq<Probe>, guess: int -> string)
    requires HasHost(db.hosts, host)
    ensures var db' := ScanPorts(db, host, probes, guess);
            && db' == db.(hosts := db'.hosts, ports := db'.ports)
            && db'.hosts == if NewAt(db, db', host) then EditHost(db, host, SetAck(false)).hosts else db.hosts
  {
    var db' := ScanPorts(db, host, probes, guess);
    RecordedRows(db, host, probes, guess);
    hide RecordProbes, EditHost, HasHost, FoundOpen, Probed;
    assert db'.ports.Keys == RecordProbes(db, host, probes, guess).ports.Keys;
    if NewFound(db, host, probes) {
      var p :| p in FoundOpen(probes) && Tcp(host, p) !in db.ports;
      assert Tcp(host, p) in db'.ports;
    }
    if NewAt(db, db', host) {
      var k :| k in db'.ports && k !in db.ports && k.host == host;
      assert k == Tcp(host, k.port);
    }
  }

  function Raised(events: seq<Event>): nat {
    if events == [] then 0 else Raised(events[..|events| - 1]) + if events[|events| - 1].PriorityReflag? then 1 else 0
  }

  lemma RaisedAppend(a: seq<Event>, b: seq<Event>)
    ensures Raised(a + b) == Raised(a) + Raised(b)
  {
    if b == [] {
      assert a + b == a;
    } else {
      assert (a + b)[..|a + b| - 1] == a + b[..|b| - 1];
      RaisedAppend(a, b[..|b| - 1]);
    }
  }

  lemma RaisedHere(db: Db, k: PortKey)
    ensures Raised(RecordEvents(db, k)) ==
            if k !in db.ports && HasHost(db.hosts, k.host) && Acknowledged(db, k.host) then 1 else 0
  {
    hide Acknowledged, HasHost;
    var first: seq<Event> := [NewPort(k.host, k.port)];
    assert first[..0] == [] && Raised(first) == 0;
    assert (first + [PriorityReflag(k.host, k.port)])[..1] == first;
    assert first + [] == first;
  }

  /** Main: a scan raises its host as a priority at most once: exactly if the host was acknowledged and the
      scan found a port that is new. */
  lemma {:induction false} RaisedOnce(db: Db, host: nat, probes: seq<Probe>, guess: int -> string)
    requires HasHost(db.hosts, host)
    ensures Raised(ProbeEvents(db, host, probes, guess)) ==
            if Acknowledged(db, host) && NewFound(db, host, probes) then 1 else 0
  {
    if probes != [] {
      var init, last := probes[..|probes| - 1], probes[|probes| - 1];
      assert probes == init + [last];
      assert FoundOpen(probes) == FoundOpen(init) + if last.open then {last.port} else {};
      RaisedOnce(db, host, init, guess);
      RecordedRows(db, host, init, guess);
      var mid := RecordProbes(db, host, init, guess);
      ClearKeepsHosts(db, host);
      AckedAfterClear(db, host, host);
      SameHostsSameAcks(mid, if NewFound(db, host, init) then EditHost(db, host, SetAck(false)) else db);
      hide Acknowledged, EditHost, HasHost, Raised, RecordEvents, FoundOpen;
      if last.open {
        RaisedHere(mid, Tcp(host, last.port));
        RaisedAppend(ProbeEvents(db, host, init, guess), RecordEvents(mid, Tcp(host, last.port)));
      } else {
        assert ProbeEvents(db, host, init, guess) + [] == ProbeEvents(db, host, init, guess);
      }
    }
  }

  /** What the probes leave in one TCP row when every number is probed once: no order in it. */
  lemma {:induction false} ProbedOnce(
    row: Option<PortRow>, k: PortKey, probes: seq<Probe>, guess: int -> string, i: nat)
    requires i < |probes| && probes[i].open && k == Tcp(k.host, probes[i].port)
    requires forall a, b | 0 <= a < b < |probes| :: probes[a].port != probes[b].port
    ensures ProbedRow(row, k, probes, guess)
         == Some(Observed(OrBlank(row), guess(k.port), probes[i].banner, "", ""))
  {
    hide Observed;
    var n := |probes| - 1;
    if i < n {
      ProbedOnce(row, k, probes[..n], guess, i);
    } else {
      ProbedRowShape(row, k, probes[..n], guess);
      assert k.port !in FoundOpen(probes[..n]);
    }
  }

  /** Main: the completion order of the probes does not matter. */
  lemma ScheduleIrrelevant(db: Db, host: nat, probes: seq<Probe>, others: seq<Probe>, guess: int -> string)
    requires HasHost(db.hosts, host)
    requires forall a, b | 0 <= a < b < |probes| :: probes[a].port != probes[b].port
    requires forall a, b | 0 <= a < b < |others| :: others[a].port != others[b].port
    requires forall p :: p in probes <==> p in others
    ensures ScanPorts(db, host, probes, guess) == ScanPorts(db, host, others, guess)
  {
    RecordedRows(db, host, probes, guess);
    RecordedRows(db, host, others, guess);
    assert Probed(probes) == Probed(others) && FoundOpen(probes) == FoundOpen(others);
    var x, y := RecordProbes(db, host, probes, guess), RecordProbes(db, host, others, guess);
    assert x.hosts == y.hosts;
    hide RecordProbes, EditHost;
    forall k | k in x.ports || k in y.ports ensures k in x.ports && k in y.ports && x.ports[k] == y.ports[k] {
      if k.host == host && k.proto == "tcp" && k.port in FoundOpen(probes) {
        var p :| p in probes && p.open && p.port == k.port;
        var i :| 0 <= i < |probes| && probes[i] == p;
        var j :| 0 <= j < |others| && others[j] == p;
        assert k == Tcp(host, p.port);
        ProbedRows(db, host, probes, guess, k);
        ProbedRows(db, host, others, guess, k);
        ProbedOnce(At(db.ports, k), k, probes, guess, i);
        ProbedOnce(At(db.ports, k), k, others, guess, j);
      }
    }
    assert x.ports == y.ports;
    assert x == y;
  }

  /** Scans of any hosts, one after the other. */
  function ScanAll(db: Db, scans: seq<(nat, seq<Probe>)>, guess: int -> string): Db {
    if scans == [] then db
    else
      var before := ScanAll(db, scans[..|scans| - 1], guess);
      ScanPorts(before, scans[|scans| - 1].0, scans[|scans| - 1].1, guess)
  }

  /** Nothing of a host but its acknowledgement. */
  ghost predicate HostsButAcks(hosts: map<HostKey, HostRow>, hosts': map<HostKey, HostRow>) {
    hosts'.Keys == hosts.Keys && forall k | k in hosts :: hosts'[k] == hosts[k].(acked := hosts'[k].acked)
  }

  lemma ScanButAcks(db: Db, host: nat, probes: seq<Probe>, guess: int -> string)
    requires HasHost(db.hosts, host)
    ensures var db' := ScanPorts(db, host, probes, guess);
            && db' == db.(hosts := db'.hosts, ports := db'.ports) && HostsButAcks(db.hosts, db'.hosts)
            && (forall id :: HasHost(db'.hosts, id) <==> HasHost(db.hosts, id))
  {
    RecordedRows(db, host, probes, guess);
    ClearKeepsHosts(db, host);
    hide RecordProbes, HasHost;
  }

  /** Main: no number of common-port scans disturbs a row whose number they do not probe. */
  lemma {:induction false} DeepFindingsSurvive(db: Db, scans: seq<(nat, seq<Probe>)>, guess: int -> string, k: PortKey)
    requires k in db.ports
    requires forall s | s in scans :: HasHost(db.hosts, s.0)
    requires forall s | s in scans && s.0 == k.host :: k.port !in Probed(s.1)
    ensures var db' := ScanAll(db, scans, guess);
            && HostsButAcks(db.hosts, db'.hosts) && (forall id :: HasHost(db'.hosts, id) <==> HasHost(db.hosts, id))
            && k in db'.ports && db'.ports[k] == db.ports[k]
  {
    hide HasHost;
    if scans != [] {
      var init, last := scans[..|scans| - 1], scans[|scans| - 1];
      assert forall s | s in init :: s in scans;
      DeepFindingsSurvive(db, init, guess, k);
      assert last in scans;
      ScanOutcome(ScanAll(db, init, guess), last.0, last.1, guess, k);
      ScanButAcks(ScanAll(db, init, guess), last.0, last.1, guess);
      hide ScanPorts;
    }
  }

  // ---- over arbitrary runs ----

  /** `row'` keeps every non-empty banner, product and version of `row` non-empty. */
  ghost predicate KeepsText(row: PortRow, row': PortRow) {
    && (row.banner != "" ==> row'.banner != "")
    && (row.product != "" ==> row'.product != "")
    && (row.version != "" ==> row'.version != "")
  }

  lemma StepKeepsText(db: Db, op: Op, threshold: nat, k: PortKey)
    requires k in Apply(db, op, threshold).ports
    ensures k in db.ports ==> KeepsText(db.ports[k], Apply(db, op, threshold).ports[k])
    ensures k !in db.ports ==> op.SeePort? && HasHost(db.hosts, k.host)
  {
  }

  lemma {:induction false} GoneStaysGone(run: Run, more: Run, threshold: nat, id: nat)
    requires id < Exec(run, threshold).nextHost && !HasHost(Exec(run, threshold).hosts, id)
    ensures !HasHost(Exec(run + more, threshold).hosts, id)
    ensures id < Exec(run + more, threshold).nextHost
  {
    hide Apply;
    if more == [] {
      assert run + more == run;
    } else {
      var init, last := more[..|more| - 1], more[|more| - 1];
      assert (run + more)[..|run + more| - 1] == run + init;
      GoneStaysGone(run, init, threshold, id);
      StepKeepsGone(Exec(run + init, threshold), last, threshold, id);
    }
  }

  /** Main: whatever runs next, a port row that still exists has lost none of its recorded text. */
  lemma {:induction false} TextNeverBlanked(run: Run, more: Run, threshold: nat, k: PortKey)
    requires k in Exec(run, threshold).ports && k in Exec(run + more, threshold).ports
    ensures KeepsText(Exec(run, threshold).ports[k], Exec(run + more, threshold).ports[k])
  {
    hide Apply;
    if more == [] {
      assert run + more == run;
    } else {
      var init, last := more[..|more| - 1], more[|more| - 1];
      assert (run + more)[..|run + more| - 1] == run + init;
      var db := Exec(run + init, threshold);
      StepKeepsText(db, last, threshold, k);
      if k in db.ports {
        TextNeverBlanked(run, init, threshold, k);
      } else {
        PortLostWithHost(run, init, threshold, k);
      }
    }
  }

  /** A port row only disappears together with its host. */
  lemma {:induction false} PortLostWithHost(run: Run, more: Run, threshold: nat, k: PortKey)
    requires k in Exec(run, threshold).ports
    ensures var db := Exec(run + more, threshold);
            k in db.ports || (!HasHost(db.hosts, k.host) && k.host < db.nextHost)
  {
    hide Apply;
    if more == [] {
      assert run + more == run;
    } else {
      var init, last := more[..|more| - 1], more[|more| - 1];
      assert (run + more)[..|run + more| - 1] == run + init;
      var db := Exec(run + init, threshold);
      RunsSound(run + init, threshold);
      if k in db.ports {
        assert HasHost(db.hosts, k.host);
        if k !in Apply(db, last, threshold).ports {
          StepLosesPortWithHost(db, last, threshold, k);
        }
      } else {
        PortLostWithHost(run, init, threshold, k);
        StepKeepsGone(db, last, threshold, k.host);
      }
    }
  }
}
