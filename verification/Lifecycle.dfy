/** The host status machine over whole runs: a host's status and miss count are a function of its
    history alone, and a sweep reports a host exactly when it takes it from up to down. */
module Lifecycle {
  import opened Tables
  import opened Runs

  /** `op`, executed in `db`, is proof that host `id` is there: a live probe, an open port, or a
      person adding it by hand. A PTR record or an imported document never is. */
  ghost predicate Evidence(db: Db, op: Op, id: nat, threshold: nat) {
    var db' := Apply(db, op, threshold);
    match op
    case SeeHost(s, ip, _, _, _) => HostKey(s, ip) in db'.hosts && db'.hosts[HostKey(s, ip)].id == id
    case ManualHost(s, ip, _, _) =>
      HostKey(s, ip) !in db.hosts && HostKey(s, ip) in db'.hosts && db'.hosts[HostKey(s, ip)].id == id
    case ChangeHost(i, Confirm) => i == id && HasHost(db.hosts, id)
    case _ => false
  }

  /** `op` is a sweep of the host's subnet that did not see its address. */
  ghost predicate MissedBy(db: Db, op: Op, id: nat) {
    op.SweepHosts? && exists k | k in db.hosts :: db.hosts[k].id == id && Unseen(k, op.subnet, op.seen)
  }

  ghost predicate EverSeen(run: Run, id: nat, threshold: nat) {
    run != [] &&
    var before := run[..|run| - 1];
    Evidence(Exec(before, threshold), run[|run| - 1], id, threshold) || EverSeen(before, id, threshold)
  }

  /** Missed sweeps since the latest evidence. */
  ghost function Misses(run: Run, id: nat, threshold: nat): nat {
    if run == [] then 0
    else
      var before := run[..|run| - 1];
      var db, op := Exec(before, threshold), run[|run| - 1];
      if Evidence(db, op, id, threshold) then 0
      else Misses(before, id, threshold) + if MissedBy(db, op, id) then 1 else 0
  }

  ghost function StatusOf(everSeen: bool, misses: nat, threshold: nat): Status {
    if !everSeen then Unknown else if misses < threshold then Up else Down
  }

  /** What one operation does to one surviving host, told from the history's side. */
  ghost predicate Tracks(h: HostRow, h': HostRow, evidence: bool, missed: bool, threshold: nat) {
    if evidence then h'.status == Up && h'.misses == 0
    else if missed then h'.status == Missed(h, threshold).status && h'.misses == h.misses + 1
    else h'.status == h.status && h'.misses == h.misses
  }

  ghost predicate StepTracked(db: Db, op: Op, threshold: nat, k: HostKey)
    requires k in Apply(db, op, threshold).hosts
  {
    var h' := Apply(db, op, threshold).hosts[k];
    if k in db.hosts then
      h'.id == db.hosts[k].id &&
      Tracks(db.hosts[k], h', Evidence(db, op, h'.id, threshold), MissedBy(db, op, h'.id), threshold)
    else
      h'.id == db.nextHost && h'.misses == 0 && !MissedBy(db, op, h'.id) &&
      h'.status == (if Evidence(db, op, h'.id, threshold) then Up else Unknown)
  }

  /** The row an upsert touches. */
  lemma TouchedTracks(db: Db, op: Op, threshold: nat)
    requires op.SeeHost? || op.SeeName? || op.RestoreHost? || op.ManualHost?
    requires HostKey(op.subnet, op.ip) in Apply(db, op, threshold).hosts
    ensures StepTracked(db, op, threshold, HostKey(op.subnet, op.ip))
  {
    hide Fill, Over, HasSubnet, HasHost, SweepMissing, EditHost, RemoveHosts, UpsertPort, SweepPorts, EditSubnet;
  }

  lemma OthersUntouched(db: Db, op: Op, threshold: nat, k: HostKey)
    requires op.SeeHost? || op.SeeName? || op.RestoreHost? || op.ManualHost?
    requires k in Apply(db, op, threshold).hosts && k != HostKey(op.subnet, op.ip)
    ensures k in db.hosts && Apply(db, op, threshold).hosts[k] == db.hosts[k]
  {
    hide Fill, Over, HasSubnet, HasHost;
  }

  lemma UpsertTracks(db: Db, op: Op, threshold: nat, k: HostKey)
    requires UniqueHosts(db.hosts, db.nextHost)
    requires op.SeeHost? || op.SeeName? || op.RestoreHost? || op.ManualHost?
    requires k in Apply(db, op, threshold).hosts
    ensures StepTracked(db, op, threshold, k)
  {
    hide Fill, Over, HasSubnet, HasHost;
    var touched := HostKey(op.subnet, op.ip);
    if k == touched {
      TouchedTracks(db, op, threshold);
    } else {
      var db' := Apply(db, op, threshold);
      OthersUntouched(db, op, threshold, k);
      if touched in db'.hosts {
        assert touched in db.hosts ==> db'.hosts[touched].id == db.hosts[touched].id;
        assert touched !in db.hosts ==> db'.hosts[touched].id == db.nextHost;
        assert db'.hosts[touched].id != db.hosts[k].id;
      }
      assert !Evidence(db, op, db.hosts[k].id, threshold);
    }
  }

  lemma RemovalTracks(db: Db, op: Op, threshold: nat, k: HostKey)
    requires op.DropSubnet? || op.DropHost? || op.DropAllHosts?
    requires k in Apply(db, op, threshold).hosts
    ensures StepTracked(db, op, threshold, k)
  {
  }

  lemma RewriteTracks(db: Db, op: Op, threshold: nat, k: HostKey)
    requires UniqueHosts(db.hosts, db.nextHost)
    requires op.ChangeHost? || op.DismissAll? || op.SweepHosts?
    requires k in Apply(db, op, threshold).hosts
    ensures StepTracked(db, op, threshold, k)
  {
    var id := db.hosts[k].id;
    assert MissedBy(db, op, id) <==> op.SweepHosts? && Unseen(k, op.subnet, op.seen);
  }

  lemma OtherTracks(db: Db, op: Op, threshold: nat, k: HostKey)
    requires op.AutoSubnet? || op.ManualSubnet? || op.ChangeSubnet? || op.SeePort? || op.ClosePorts?
          || op.NewRule? || op.ChangeRule? || op.DropRule?
    requires k in Apply(db, op, threshold).hosts
    ensures StepTracked(db, op, threshold, k)
  {
    assert Apply(db, op, threshold).hosts == db.hosts;
  }

  lemma StepTracks(db: Db, op: Op, threshold: nat, k: HostKey)
    requires UniqueHosts(db.hosts, db.nextHost)
    requires k in Apply(db, op, threshold).hosts
    ensures StepTracked(db, op, threshold, k)
  {
    hide *;
    if op.SeeHost? || op.SeeName? || op.RestoreHost? || op.ManualHost? {
      UpsertTracks(db, op, threshold, k);
    } else if op.DropSubnet? || op.DropHost? || op.DropAllHosts? {
      RemovalTracks(db, op, threshold, k);
    } else if op.ChangeHost? || op.DismissAll? || op.SweepHosts? {
      RewriteTracks(db, op, threshold, k);
    } else {
      OtherTracks(db, op, threshold, k);
    }
  }

  /** An id not handed out yet has no history. */
  lemma {:induction false} FreshHasNoHistory(run: Run, id: nat, threshold: nat)
    requires id >= Exec(run, threshold).nextHost
    ensures !EverSeen(run, id, threshold) && Misses(run, id, threshold) == 0
  {
    if run != [] {
      var before := run[..|run| - 1];
      var db, op := Exec(before, threshold), run[|run| - 1];
      FreshIdsGrow(db, op, threshold);
      FreshHasNoHistory(before, id, threshold);
      RunsSound(before, threshold);
      RunsSound(run, threshold);
      assert !HasHost(db.hosts, id);
      assert !HasHost(Exec(run, threshold).hosts, id);
    }
  }

  /** Main: status and miss count of every stored host are exactly what its history says. */
  lemma {:induction false} StatusIsHistory(run: Run, threshold: nat, k: HostKey)
    requires threshold >= 1
    requires k in Exec(run, threshold).hosts
    ensures var h := Exec(run, threshold).hosts[k];
            && h.misses == Misses(run, h.id, threshold)
            && h.status == StatusOf(EverSeen(run, h.id, threshold), h.misses, threshold)
  {
    var before := run[..|run| - 1];
    var db, op := Exec(before, threshold), run[|run| - 1];
    var h := Exec(run, threshold).hosts[k];
    RunsSound(before, threshold);
    StepTracks(db, op, threshold, k);
    if k in db.hosts {
      StatusIsHistory(before, threshold, k);
    } else {
      FreshHasNoHistory(before, h.id, threshold);
    }
  }

  lemma {:induction false} EvidenceStays(run: Run, more: Run, id: nat, threshold: nat)
    requires EverSeen(run, id, threshold)
    ensures EverSeen(run + more, id, threshold)
  {
    hide Evidence;
    if more == [] {
      assert run + more == run;
    } else {
      assert (run + more)[..|run + more| - 1] == run + more[..|more| - 1];
      EvidenceStays(run, more[..|more| - 1], id, threshold);
    }
  }

  /** Main: nothing returns to unknown: whatever runs next, a host that has been up or down is up or
      down for as long as its row exists. */
  lemma NeverUnknownAgain(run: Run, more: Run, threshold: nat, k: HostKey, k': HostKey)
    requires threshold >= 1
    requires k in Exec(run, threshold).hosts && k' in Exec(run + more, threshold).hosts
    requires Exec(run + more, threshold).hosts[k'].id == Exec(run, threshold).hosts[k].id
    requires Exec(run, threshold).hosts[k].status != Unknown
    ensures Exec(run + more, threshold).hosts[k'].status != Unknown
  {
    StatusIsHistory(run, threshold, k);
    StatusIsHistory(run + more, threshold, k');
    EvidenceStays(run, more, Exec(run, threshold).hosts[k].id, threshold);
  }

  /** Main: a sweep reports a host iff the sweep moves it from up to down, and that is precisely its
      `threshold`-th miss in a row since it was last seen. */
  lemma SweepReportsTransitions(run: Run, threshold: nat, subnet: nat, seen: set<string>, k: HostKey)
    requires threshold >= 1
    requires k in Exec(run, threshold).hosts
    ensures var run' := run + [SweepHosts(subnet, seen)];
            var db, db' := Exec(run, threshold), Exec(run', threshold);
            var h := db.hosts[k];
            && k in db'.hosts
            && (k in WentDown(db, subnet, seen, threshold) <==> h.status == Up && db'.hosts[k].status == Down)
            && (k in WentDown(db, subnet, seen, threshold) <==>
                Unseen(k, subnet, seen) && EverSeen(run, h.id, threshold) && Misses(run', h.id, threshold) == threshold)
  {
    var op := SweepHosts(subnet, seen);
    var run' := run + [op];
    assert run'[..|run|] == run;
    RunsSound(run, threshold);
    StatusIsHistory(run, threshold, k);
    StatusIsHistory(run', threshold, k);
    StepTracks(Exec(run, threshold), op, threshold, k);
  }

  /** Only sweeps take hosts down, so over a run the reports of a host are its up-to-down moves. */
  ghost function Reports(run: Run, id: nat, threshold: nat): nat {
    if run == [] then 0
    else
      var before := run[..|run| - 1];
      var db, op := Exec(before, threshold), run[|run| - 1];
      Reports(before, id, threshold) +
      if op.SweepHosts? && exists k | k in WentDown(db, op.subnet, op.seen, threshold) :: db.hosts[k].id == id
      then 1 else 0
  }

  ghost predicate HasStatus(db: Db, id: nat, s: Status) {
    exists k | k in db.hosts :: db.hosts[k].id == id && db.hosts[k].status == s
  }

  ghost function Descents(run: Run, id: nat, threshold: nat): nat {
    if run == [] then 0
    else
      var before := run[..|run| - 1];
      Descents(before, id, threshold) +
      if HasStatus(Exec(before, threshold), id, Up) && HasStatus(Exec(run, threshold), id, Down) then 1 else 0
  }

  lemma DescentIsReport(run: Run, op: Op, id: nat, threshold: nat)
    requires threshold >= 1
    ensures var db := Exec(run, threshold);
            HasStatus(db, id, Up) && HasStatus(Apply(db, op, threshold), id, Down) <==>
            op.SweepHosts? && exists k | k in WentDown(db, op.subnet, op.seen, threshold) :: db.hosts[k].id == id
  {
    var db := Exec(run, threshold);
    var db' := Apply(db, op, threshold);
    RunsSound(run, threshold);
    if HasStatus(db, id, Up) && HasStatus(db', id, Down) {
      var k :| k in db'.hosts && db'.hosts[k].id == id && db'.hosts[k].status == Down;
      StepTracks(db, op, threshold, k);
      assert op.SweepHosts? && k in WentDown(db, op.subnet, op.seen, threshold);
    }
    if op.SweepHosts? && exists k | k in WentDown(db, op.subnet, op.seen, threshold) :: db.hosts[k].id == id {
      var k :| k in WentDown(db, op.subnet, op.seen, threshold) && db.hosts[k].id == id;
      assert db'.hosts[k].status == Down;
    }
  }

  /** Main: over any run a host is reported exactly as often as it goes down. */
  lemma {:induction false} ReportedOncePerDescent(run: Run, id: nat, threshold: nat)
    requires threshold >= 1
    ensures Reports(run, id, threshold) == Descents(run, id, threshold)
  {
    if run != [] {
      ReportedOncePerDescent(run[..|run| - 1], id, threshold);
      DescentIsReport(run[..|run| - 1], run[|run| - 1], id, threshold);
    }
  }
}
