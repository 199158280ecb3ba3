/** "Insert the port, then clear the acknowledgement" as a protocol: any number of scanner threads,
    each running its two store calls as two separate atomic steps, interleaved with every other
    operation of the store. A ghost clock dates port rows and acknowledgements. */
module Reflag {
  import opened Tables
  import opened Runs
  import opened Stores

  // ---- one thread, run alone ----

  datatype Event =
    | NewPort(host: nat, port: int)
    | PriorityReflag(host: nat, port: int)
    | PortClosed(host: nat, port: int)

  ghost predicate Acknowledged(db: Db, id: nat) {
    exists k | k in db.hosts :: db.hosts[k].id == id && db.hosts[k].acked
  }

  /** A new port row clears its host's acknowledgement. */
  function Recorded(db: Db, k: PortKey, service: string, banner: string, product: string, version: string): Db {
    var db1 := UpsertPort(db, k, service, banner, product, version);
    if k in db1.ports && k !in db.ports then EditHost(db1, k.host, SetAck(false)) else db1
  }

  ghost function RecordEvents(db: Db, k: PortKey): seq<Event> {
    if k in db.ports || !HasHost(db.hosts, k.host) then []
    else [NewPort(k.host, k.port)] + if Acknowledged(db, k.host) then [PriorityReflag(k.host, k.port)] else []
  }

  method RecordOpenPort(st: Store, host: nat, port: int, service: string, banner: string, product: string,
                        version: string)
    returns (events: seq<Event>)
    modifies st
    ensures st.Snapshot() == Recorded(old(st.Snapshot()), PortKey(host, port, "tcp"), service, banner, product, version)
    ensures events == RecordEvents(old(st.Snapshot()), PortKey(host, port, "tcp"))
    ensures PortKey(host, port, "tcp") in old(st.ports) || PortKey(host, port, "tcp") !in st.ports ==> events == []
    ensures PortKey(host, port, "tcp") !in old(st.ports) && PortKey(host, port, "tcp") in st.ports ==>
              if exists k | k in old(st.hosts) :: old(st.hosts)[k].id == host && old(st.hosts)[k].acked
              then events == [NewPort(host, port), PriorityReflag(host, port)]
                && forall k | k in st.hosts :: st.hosts[k].id == host ==> !st.hosts[k].acked
              else events == [NewPort(host, port)]
    ensures st.scans == old(st.scans)
  {
    events := [];
    var isNew := st.UpsertPort(host, port, "tcp", service, banner, product, version);
    if isNew {
      events := [NewPort(host, port)];
      var wasAcked := st.ClearAcknowledgementIfSet(host);
      if wasAcked {
        events := events + [PriorityReflag(host, port)];
      }
    }
  }

  // ---- many threads ----

  /** Between its two calls a thread remembers, for the proof, when its row appeared. */
  datatype Pc = Upserting | Clearing(since: nat) | Finished

  /** A `recordOpenPort` call in flight. */
  datatype Thread = Thread(key: PortKey, service: string, banner: string, product: string, version: string, pc: Pc)

  /** Who inserted a port row, and when. */
  datatype Birth = Scanned(at: nat, thread: nat) | Merged(at: nat)

  datatype World = World(
    db: Db, clock: nat, threads: map<nat, Thread>, births: map<PortKey, Birth>,
    acks: map<nat, nat>, reflags: seq<nat>)

  const Start: World := World(Tables.Empty, 0, map[], map[], map[], [])

  datatype Action =
    | Spawn(t: nat, host: nat, port: int, service: string, banner: string, product: string, version: string)
    | Record(t: nat)
    | Clear(t: nat)
    | Call(op: Op)

  function Born(births: map<PortKey, Birth>, db: Db, b: Birth): map<PortKey, Birth> {
    map k | k in db.ports :: if k in births then births[k] else b
  }

  /** One atomic step; an action that is not enabled does nothing. */
  ghost function Step(w: World, a: Action, threshold: nat): World {
    var now := w.clock + 1;
    match a
    case Spawn(t, h, p, s, b, pr, v) =>
      if t in w.threads then w
      else w.(threads := w.threads[t := Thread(PortKey(h, p, "tcp"), s, b, pr, v, Upserting)], clock := now)
    case Record(t) =>
      if t !in w.threads || w.threads[t].pc != Upserting then w
      else
        var th := w.threads[t];
        var db' := Tables.UpsertPort(w.db, th.key, th.service, th.banner, th.product, th.version);
        var isNew := th.key in db'.ports && th.key !in w.db.ports;
        w.(db := db', clock := now, births := Born(w.births, db', Scanned(now, t)),
           threads := w.threads[t := th.(pc := if isNew then Clearing(now) else Finished)])
    case Clear(t) =>
      if t !in w.threads || !w.threads[t].pc.Clearing? then w
      else
        var th := w.threads[t];
        w.(db := EditHost(w.db, th.key.host, SetAck(false)), clock := now,
           threads := w.threads[t := th.(pc := Finished)],
           reflags := w.reflags + if Acknowledged(w.db, th.key.host) then [th.key.host] else [])
    case Call(op) =>
      var db' := Apply(w.db, op, threshold);
      w.(db := db', clock := now, births := Born(w.births, db', Merged(now)),
         acks := if AcksHost(op) then w.acks[op.hostId := now] else w.acks)
  }

  predicate AcksHost(op: Op) {
    op.ChangeHost? && op.hostEdit == SetAck(true)
  }

  ghost function Play(actions: seq<Action>, threshold: nat): World {
    if actions == [] then Start
    else Step(Play(actions[..|actions| - 1], threshold), actions[|actions| - 1], threshold)
  }

  /** Main: a thread that runs alone does to the tables what `RecordOpenPort` does. */
  lemma AloneIsRecorded(w: World, t: nat, host: nat, port: int, service: string, banner: string, product: string,
                        version: string, threshold: nat)
    requires t !in w.threads
    ensures var w1 := Step(w, Spawn(t, host, port, service, banner, product, version), threshold);
            var w3 := Step(Step(w1, Record(t), threshold), Clear(t), threshold);
            && w3.db == Recorded(w.db, PortKey(host, port, "tcp"), service, banner, product, version)
            && w3.threads == w.threads[t := w3.threads[t]] && w3.threads[t].pc == Finished
  {
    hide Tables.UpsertPort, EditHost;
    var w1 := Step(w, Spawn(t, host, port, service, banner, product, version), threshold);
    var w2 := Step(w1, Record(t), threshold);
    assert w2.threads == w.threads[t := w2.threads[t]];
  }

  /** The row appeared after its host's latest acknowledgement. */
  ghost predicate NewerThanAck(w: World, k: PortKey)
    requires k in w.births
  {
    k.host in w.acks && w.acks[k.host] < w.births[k].at
  }

  ghost predicate ClearPending(w: World, k: PortKey, t: nat) {
    t in w.threads && k in w.births && w.threads[t].pc == Clearing(w.births[k].at) && w.threads[t].key == k
  }

  /** The promise: a host may stay acknowledged beside a newer scanned row only until that row's own
      thread has run its clear step. */
  ghost predicate Guarded(w: World) {
    forall k | k in w.births && w.births[k].Scanned? && Acknowledged(w.db, k.host) && NewerThanAck(w, k) ::
      ClearPending(w, k, w.births[k].thread)
  }

  ghost predicate Dated(w: World) {
    && w.births.Keys == w.db.ports.Keys
    && (forall k | k in w.births :: w.births[k].at <= w.clock)
    && (forall h | h in w.acks :: w.acks[h] <= w.clock)
    && (forall t | t in w.threads && w.threads[t].pc.Clearing? :: w.threads[t].pc.since <= w.clock)
  }

  /** Only an acknowledge request ever acknowledges. */
  ghost predicate AcksRequested(w: World) {
    forall k | k in w.db.hosts && w.db.hosts[k].acked :: w.db.hosts[k].id in w.acks
  }

  lemma AckedBefore(db: Db, op: Op, threshold: nat, k: HostKey)
    requires k in Apply(db, op, threshold).hosts && Apply(db, op, threshold).hosts[k].acked
    ensures var id := Apply(db, op, threshold).hosts[k].id;
            (k in db.hosts && db.hosts[k].id == id && db.hosts[k].acked) || (AcksHost(op) && op.hostId == id)
  {
    if op.SeeHost? || op.SeeName? || op.RestoreHost? || op.ManualHost? {
      UpsertKeepsAcks(db, op, threshold, k);
    } else if op.ChangeHost? || op.DismissAll? || op.SweepHosts? {
      RewriteKeepsAcks(db, op, threshold, k);
    } else {
      OthersKeepAcks(db, op, threshold, k);
    }
    hide Apply;
  }

  lemma UpsertKeepsAcks(db: Db, op: Op, threshold: nat, k: HostKey)
    requires op.SeeHost? || op.SeeName? || op.RestoreHost? || op.ManualHost?
    requires k in Apply(db, op, threshold).hosts && Apply(db, op, threshold).hosts[k].acked
    ensures k in db.hosts && db.hosts[k].id == Apply(db, op, threshold).hosts[k].id && db.hosts[k].acked
  {
    hide Fill, Over, HasSubnet, HasHost;
    if op.SeeHost? {
    } else if op.SeeName? {
    } else if op.RestoreHost? {
    } else {
    }
  }

  lemma RewriteKeepsAcks(db: Db, op: Op, threshold: nat, k: HostKey)
    requires op.ChangeHost? || op.DismissAll? || op.SweepHosts?
    requires k in Apply(db, op, threshold).hosts && Apply(db, op, threshold).hosts[k].acked
    ensures k in db.hosts && db.hosts[k].id == Apply(db, op, threshold).hosts[k].id
    ensures db.hosts[k].acked || (AcksHost(op) && op.hostId == db.hosts[k].id)
  {
  }

  lemma OthersKeepAcks(db: Db, op: Op, threshold: nat, k: HostKey)
    requires !(op.SeeHost? || op.SeeName? || op.RestoreHost? || op.ManualHost?)
    requires !(op.ChangeHost? || op.DismissAll? || op.SweepHosts?)
    requires k in Apply(db, op, threshold).hosts
    ensures k in db.hosts && db.hosts[k] == Apply(db, op, threshold).hosts[k]
  {
    hide HasHost, HasSubnet;
  }

  /** So a host acknowledged after a call was acknowledged before it, unless the call was the request. */
  lemma AckedHostBefore(db: Db, op: Op, threshold: nat, id: nat)
    requires Acknowledged(Apply(db, op, threshold), id)
    ensures Acknowledged(db, id) || (AcksHost(op) && op.hostId == id)
  {
    hide Apply;
    var db' := Apply(db, op, threshold);
    var k :| k in db'.hosts && db'.hosts[k].id == id && db'.hosts[k].acked;
    AckedBefore(db, op, threshold, k);
  }

  lemma CallSafe(w: World, op: Op, threshold: nat)
    requires Guarded(w) && Dated(w) && AcksRequested(w)
    ensures var w' := Step(w, Call(op), threshold); Guarded(w') && Dated(w') && AcksRequested(w')
  {
    var w' := Step(w, Call(op), threshold);
    hide Apply;
    forall k | k in w'.db.hosts && w'.db.hosts[k].acked ensures w'.db.hosts[k].id in w'.acks {
      AckedBefore(w.db, op, threshold, k);
    }
    forall k | k in w'.births && w'.births[k].Scanned? && Acknowledged(w'.db, k.host) && NewerThanAck(w', k)
      ensures ClearPending(w', k, w'.births[k].thread)
    {
      AckedHostBefore(w.db, op, threshold, k.host);
    }
  }

  /** Clearing a host's acknowledgement leaves exactly the other acknowledged ones. */
  lemma AckedAfterClear(db: Db, h: nat, id: nat)
    ensures Acknowledged(EditHost(db, h, SetAck(false)), id) <==> Acknowledged(db, id) && id != h
  {
    var db' := EditHost(db, h, SetAck(false));
    if Acknowledged(db', id) {
      var k :| k in db'.hosts && db'.hosts[k].id == id && db'.hosts[k].acked;
      assert k in db.hosts && db.hosts[k].id == id && db.hosts[k].acked;
    }
    if Acknowledged(db, id) && id != h {
      var k :| k in db.hosts && db.hosts[k].id == id && db.hosts[k].acked;
      assert k in db'.hosts && db'.hosts[k].id == id && db'.hosts[k].acked;
    }
  }

  lemma UpsertAddsOne(db: Db, k: PortKey, service: string, banner: string, product: string, version: string)
    ensures var db' := UpsertPort(db, k, service, banner, product, version);
            && db'.hosts == db.hosts && forall l :: l in db'.ports && l !in db.ports ==> l == k
  {
  }

  lemma RecordSafe(w: World, t: nat, threshold: nat)
    requires t in w.threads && w.threads[t].pc == Upserting
    requires Guarded(w) && Dated(w) && AcksRequested(w)
    ensures var w' := Step(w, Record(t), threshold); Guarded(w') && Dated(w') && AcksRequested(w')
  {
    hide Acknowledged, UpsertPort;
    var w', th := Step(w, Record(t), threshold), w.threads[t];
    UpsertAddsOne(w.db, th.key, th.service, th.banner, th.product, th.version);
    SameHostsSameAcks(w.db, w'.db);
    forall k | k in w'.births && w'.births[k].Scanned? && Acknowledged(w'.db, k.host) && NewerThanAck(w', k)
      ensures ClearPending(w', k, w'.births[k].thread)
    {
      if k in w.births {
        assert NewerThanAck(w, k) && ClearPending(w, k, w.births[k].thread);
      }
    }
  }

  lemma SameHostsSameAcks(db: Db, db': Db)
    requires db.hosts == db'.hosts
    ensures forall id :: Acknowledged(db, id) <==> Acknowledged(db', id)
  {
  }

  lemma ClearSafe(w: World, t: nat, threshold: nat)
    requires t in w.threads && w.threads[t].pc.Clearing?
    requires Guarded(w) && Dated(w) && AcksRequested(w)
    ensures var w' := Step(w, Clear(t), threshold); Guarded(w') && Dated(w') && AcksRequested(w')
  {
    var w' := Step(w, Clear(t), threshold);
    assert AcksRequested(w');
    hide Acknowledged, EditHost;
    forall k | k in w'.births && w'.births[k].Scanned? && Acknowledged(w'.db, k.host) && NewerThanAck(w', k)
      ensures ClearPending(w', k, w'.births[k].thread)
    {
      AckedAfterClear(w.db, w.threads[t].key.host, k.host);
      assert NewerThanAck(w, k) && ClearPending(w, k, w.births[k].thread);
    }
  }

  /** Main: the promise holds in every interleaving. */
  lemma {:induction false} AlwaysGuarded(actions: seq<Action>, threshold: nat)
    ensures var w := Play(actions, threshold); Guarded(w) && Dated(w) && AcksRequested(w)
  {
    if actions != [] {
      var init, a := actions[..|actions| - 1], actions[|actions| - 1];
      AlwaysGuarded(init, threshold);
      var w := Play(init, threshold);
      hide Apply, Acknowledged, EditHost, UpsertPort;
      match a {
        case Call(op) => CallSafe(w, op, threshold);
        case Spawn(_, _, _, _, _, _, _) =>
        case Record(t) => if t in w.threads && w.threads[t].pc == Upserting { RecordSafe(w, t, threshold); }
        case Clear(t) => if t in w.threads && w.threads[t].pc.Clearing? { ClearSafe(w, t, threshold); }
      }
    }
  }

  ghost predicate Quiescent(w: World) {
    forall t | t in w.threads :: w.threads[t].pc == Finished
  }

  /** Main: with no call in flight, a host that is still acknowledged was acknowledged after every
      port a scan found on it; any newer row came from an import. */
  lemma AtRestNothingUnreviewed(actions: seq<Action>, threshold: nat, k: PortKey)
    requires var w := Play(actions, threshold); Quiescent(w) && k in w.db.ports && Acknowledged(w.db, k.host)
    ensures var w := Play(actions, threshold);
            k.host in w.acks && k in w.births && (w.births[k].Scanned? ==> w.births[k].at <= w.acks[k.host])
  {
    AlwaysGuarded(actions, threshold);
  }

  /** The exception is real: whenever an import brings a port to an acknowledged host, the host stays
      acknowledged beside the newer row, and nothing is in flight that would change that. */
  lemma ImportEscapes(actions: seq<Action>, threshold: nat, k: PortKey, service: string, banner: string,
                      version: string)
    requires k.proto != ""
    requires var w := Play(actions, threshold); k !in w.db.ports && Acknowledged(w.db, k.host) && Quiescent(w)
    ensures var w' := Play(actions + [Call(SeePort(k, service, banner, "", version))], threshold);
            Quiescent(w') && k in w'.births && Acknowledged(w'.db, k.host) && NewerThanAck(w', k)
  {
    AlwaysGuarded(actions, threshold);
    var w := Play(actions, threshold);
    var a := Call(SeePort(k, service, banner, "", version));
    assert (actions + [a])[..|actions|] == actions;
    var w' := Step(w, a, threshold);
    var h :| h in w.db.hosts && w.db.hosts[h].id == k.host && w.db.hosts[h].acked;
    assert HasHost(w.db.hosts, k.host);
    assert w'.db.hosts == w.db.hosts && k in w'.db.ports;
  }

  /** A run that does it: a subnet, a host, its acknowledgement, an imported port. */
  function Escape(): seq<Action> {
    [Call(AutoSubnet("10.0.0.0/24", "", ""))] + [Call(SeeHost(1, "10.0.0.5", "", "", ""))] +
    [Call(ChangeHost(1, SetAck(true)))]
  }

  lemma EscapeStarts(threshold: nat)
    ensures var w := Play(Escape(), threshold); w.db.ports == map[] && Acknowledged(w.db, 1) && Quiescent(w)
  {
    hide Born;
    var subnet, host := Call(AutoSubnet("10.0.0.0/24", "", "")), Call(SeeHost(1, "10.0.0.5", "", "", ""));
    assert [] + [subnet] == [subnet];
    PlayLast([], subnet, threshold);
    PlayLast([subnet], host, threshold);
    PlayLast([subnet] + [host], Call(ChangeHost(1, SetAck(true))), threshold);
    var w := Play([subnet] + [host], threshold);
    var k := HostKey(1, "10.0.0.5");
    assert HasSubnet(Play([subnet], threshold).db.subnets, 1) by {
      assert "10.0.0.0/24" in Play([subnet], threshold).db.subnets;
    }
    assert w.db.hosts == map[k := HostRow(1, "", "", "", Up, Auto, "", 0, false, false)];
    assert k in Play(Escape(), threshold).db.hosts && Play(Escape(), threshold).db.hosts[k].acked;
  }

  lemma ImportEscapesHere(threshold: nat)
    ensures var k := PortKey(1, 22, "tcp");
            var w := Play(Escape() + [Call(SeePort(k, "ssh", "", "", ""))], threshold);
            Quiescent(w) && k in w.births && Acknowledged(w.db, 1) && NewerThanAck(w, k)
  {
    EscapeStarts(threshold);
    hide Play, Escape;
    ImportEscapes(Escape(), threshold, PortKey(1, 22, "tcp"), "ssh", "", "");
  }

  // ---- which acknowledgements are taken back ----

  function Ack(id: nat): Action {
    Call(ChangeHost(id, SetAck(true)))
  }

  /** The world after `actions`, an acknowledgement of `id`, and then `more`. */
  ghost function Later(actions: seq<Action>, id: nat, more: seq<Action>, threshold: nat): World {
    Play(actions + [Ack(id)] + more, threshold)
  }

  /** The time of that acknowledgement. */
  ghost function AckTime(actions: seq<Action>, threshold: nat): nat {
    Play(actions, threshold).clock + 1
  }

  /** The host is still acknowledged, and by that very request. */
  ghost predicate Stands(w: World, id: nat, at: nat) {
    Acknowledged(w.db, id) && id in w.acks && w.acks[id] == at
  }

  /** Thread `t`'s clear step, next after `more`, takes that acknowledgement back although the port the
      thread recorded is older than it. */
  ghost predicate TakesBack(actions: seq<Action>, id: nat, more: seq<Action>, t: nat, threshold: nat) {
    var w := Later(actions, id, more, threshold);
    && Stands(w, id, AckTime(actions, threshold))
    && t in w.threads && w.threads[t].pc.Clearing? && w.threads[t].pc.since < AckTime(actions, threshold)
    && !Acknowledged(Step(w, Clear(t), threshold).db, id)
  }

  ghost predicate CanTakeBack(actions: seq<Action>, id: nat, t: nat, threshold: nat) {
    exists more :: TakesBack(actions, id, more, t, threshold)
  }

  /** A thread of the host is between inserting its port and clearing the acknowledgement. */
  ghost predicate ClearingHost(w: World, t: nat, id: nat) {
    t in w.threads && w.threads[t].pc.Clearing? && w.threads[t].key.host == id
  }

  lemma LastApart(run: seq<Action>, more: seq<Action>)
    requires more != []
    ensures run + more == run + more[..|more| - 1] + [more[|more| - 1]]
  {
    assert more == more[..|more| - 1] + [more[|more| - 1]];
  }

  lemma LaterStep(actions: seq<Action>, id: nat, more: seq<Action>, threshold: nat)
    ensures Later(actions, id, [], threshold) == Step(Play(actions, threshold), Ack(id), threshold)
    ensures more != [] ==>
              Later(actions, id, more, threshold) ==
                Step(Later(actions, id, more[..|more| - 1], threshold), more[|more| - 1], threshold)
  {
    hide Play, Step, Ack;
    var run := actions + [Ack(id)];
    PlayLast(actions, Ack(id), threshold);
    assert Later(actions, id, [], threshold) == Play(run, threshold) by { assert run + [] == run; }
    if more != [] {
      LastApart(run, more);
      PlayLast(run + more[..|more| - 1], more[|more| - 1], threshold);
    }
  }

  lemma PlayLast(actions: seq<Action>, a: Action, threshold: nat)
    ensures Play(actions + [a], threshold) == Step(Play(actions, threshold), a, threshold)
  {
    hide Step;
    assert (actions + [a])[..|actions|] == actions;
  }

  /** A thread that still has an old row's clear to run had it to run before. */
  lemma OldClearing(w: World, a: Action, t: nat, threshold: nat)
    requires var w' := Step(w, a, threshold);
             t in w'.threads && w'.threads[t].pc.Clearing? && w'.threads[t].pc.since <= w.clock
    ensures t in w.threads && w.threads[t] == Step(w, a, threshold).threads[t]
  {
    hide Apply, EditHost, UpsertPort, Acknowledged;
  }

  lemma ClockRises(w: World, a: Action, threshold: nat)
    ensures w.clock <= Step(w, a, threshold).clock
  {
    hide Apply, EditHost, UpsertPort, Acknowledged;
  }

  lemma {:induction false} OldClearingLater(actions: seq<Action>, id: nat, more: seq<Action>, t: nat, threshold: nat)
    requires var w := Later(actions, id, more, threshold);
             t in w.threads && w.threads[t].pc.Clearing? && w.threads[t].pc.since < AckTime(actions, threshold)
    ensures AckTime(actions, threshold) <= Later(actions, id, more, threshold).clock
    ensures t in Play(actions, threshold).threads
    ensures Play(actions, threshold).threads[t] == Later(actions, id, more, threshold).threads[t]
  {
    LaterStep(actions, id, more, threshold);
    LaterClock(actions, id, more, threshold);
    hide Later, Step;
    if more == [] {
      OldClearing(Play(actions, threshold), Ack(id), t, threshold);
    } else {
      var n := |more| - 1;
      LaterClock(actions, id, more[..n], threshold);
      OldClearing(Later(actions, id, more[..n], threshold), more[n], t, threshold);
      OldClearingLater(actions, id, more[..n], t, threshold);
    }
  }

  lemma {:induction false} LaterClock(actions: seq<Action>, id: nat, more: seq<Action>, threshold: nat)
    ensures AckTime(actions, threshold) <= Later(actions, id, more, threshold).clock
  {
    LaterStep(actions, id, more, threshold);
    if more != [] {
      hide Later, Step;
      LaterClock(actions, id, more[..|more| - 1], threshold);
      ClockRises(Later(actions, id, more[..|more| - 1], threshold), more[|more| - 1], threshold);
    } else {
      hide Apply, Later;
    }
  }

  /** Main: an acknowledgement of a stored host can later be taken back by a thread whose port is older than
      it if and only if, as it is made, that thread is between the host's new row and its clear. */
  lemma LateAckIsTakenBack(actions: seq<Action>, id: nat, t: nat, threshold: nat)
    requires HasHost(Play(actions, threshold).db.hosts, id)
    ensures CanTakeBack(actions, id, t, threshold) <==> ClearingHost(Play(actions, threshold), t, id)
  {
    var w := Play(actions, threshold);
    if ClearingHost(w, t, id) {
      AckTakenAtOnce(actions, id, t, threshold);
    }
    if CanTakeBack(actions, id, t, threshold) {
      var more :| TakesBack(actions, id, more, t, threshold);
      OldClearingLater(actions, id, more, t, threshold);
      var w2 := Later(actions, id, more, threshold);
      hide Later, Play, EditHost, Acknowledged;
      AckedAfterClear(w2.db, w2.threads[t].key.host, id);
    }
  }

  lemma AckTakenAtOnce(actions: seq<Action>, id: nat, t: nat, threshold: nat)
    requires HasHost(Play(actions, threshold).db.hosts, id) && ClearingHost(Play(actions, threshold), t, id)
    ensures CanTakeBack(actions, id, t, threshold)
  {
    var w := Play(actions, threshold);
    AlwaysGuarded(actions, threshold);
    LaterStep(actions, id, [], threshold);
    var w1 := Later(actions, id, [], threshold);
    AckTakes(w.db, id, threshold);
    hide Play, Later, Acknowledged, EditHost;
    AckedAfterClear(w1.db, id, id);
    assert TakesBack(actions, id, [], t, threshold);
  }

  lemma AckTakes(db: Db, id: nat, threshold: nat)
    requires HasHost(db.hosts, id)
    ensures Acknowledged(Apply(db, ChangeHost(id, SetAck(true)), threshold), id)
  {
    var k :| k in db.hosts && db.hosts[k].id == id;
    var db' := Apply(db, ChangeHost(id, SetAck(true)), threshold);
    assert k in db'.hosts && db'.hosts[k].id == id && db'.hosts[k].acked;
  }

  /** So any host a new port is being recorded for can lose an acknowledgement it is given meanwhile. */
  lemma AckBetweenCallsIsLost(actions: seq<Action>, id: nat, t: nat, port: int, threshold: nat)
    requires var w := Play(actions, threshold);
             HasHost(w.db.hosts, id) && t !in w.threads && PortKey(id, port, "tcp") !in w.db.ports
    ensures CanTakeBack(actions + [Spawn(t, id, port, "", "", "", "")] + [Record(t)], id, t, threshold)
  {
    var spawn := Spawn(t, id, port, "", "", "", "");
    PlayLast(actions, spawn, threshold);
    PlayLast(actions + [spawn], Record(t), threshold);
    LateAckIsTakenBack(actions + [spawn] + [Record(t)], id, t, threshold);
  }

  // ---- what can end an acknowledgement ----

  lemma StepSoundWorld(w: World, a: Action, threshold: nat)
    requires Sound(w.db)
    ensures Sound(Step(w, a, threshold).db)
  {
    hide Sound, Acknowledged;
    match a {
      case Spawn(_, _, _, _, _, _, _) =>
      case Call(op) => StepSound(w.db, op, threshold);
      case Record(t) =>
        if t in w.threads {
          var th := w.threads[t];
          if th.key.proto == "tcp" {
            StepSound(w.db, SeePort(th.key, th.service, th.banner, th.product, th.version), threshold);
          } else {
            AnyPortSound(w.db, th, threshold);
          }
        }
      case Clear(t) =>
        if t in w.threads { StepSound(w.db, ChangeHost(w.threads[t].key.host, SetAck(false)), threshold); }
    }
  }

  lemma AnyPortSound(db: Db, th: Thread, threshold: nat)
    requires Sound(db)
    ensures Sound(UpsertPort(db, th.key, th.service, th.banner, th.product, th.version))
  {
  }

  lemma {:induction false} PlaySound(actions: seq<Action>, threshold: nat)
    ensures Sound(Play(actions, threshold).db)
  {
    if actions != [] {
      hide Sound, Step;
      PlaySound(actions[..|actions| - 1], threshold);
      StepSoundWorld(Play(actions[..|actions| - 1], threshold), actions[|actions| - 1], threshold);
    } else {
      assert Sound(Tables.Empty);
    }
  }

  /** A store call that leaves the host and is no explicit un-acknowledge keeps it acknowledged. */
  lemma CallKeepsAck(db: Db, op: Op, threshold: nat, id: nat)
    requires UniqueHosts(db.hosts, db.nextHost) && id < db.nextHost
    requires Acknowledged(db, id) && HasHost(Apply(db, op, threshold).hosts, id)
    requires op != ChangeHost(id, SetAck(false))
    ensures Acknowledged(Apply(db, op, threshold), id)
  {
    var db' := Apply(db, op, threshold);
    var l :| l in db'.hosts && db'.hosts[l].id == id;
    IdsFromBefore(db, op, threshold, l);
    KeptRowKeepsAck(db, op, threshold, l);
  }

  lemma KeptRowKeepsAck(db: Db, op: Op, threshold: nat, k: HostKey)
    requires k in db.hosts && k in Apply(db, op, threshold).hosts
    requires op != ChangeHost(db.hosts[k].id, SetAck(false))
    ensures db.hosts[k].acked ==> Apply(db, op, threshold).hosts[k].acked
  {
    hide Fill, Over, HasSubnet, HasHost;
  }

  /** Main: an acknowledgement that stands ends in one step only by an explicit un-acknowledge, by the
      host's removal, by the clear of a port scanned since, or by a thread that was already between its two
      calls when the acknowledgement was made. */
  lemma AckEndsOnlyBy(actions: seq<Action>, id: nat, more: seq<Action>, a: Action, threshold: nat)
    requires Stands(Later(actions, id, more, threshold), id, AckTime(actions, threshold))
    requires !Acknowledged(Step(Later(actions, id, more, threshold), a, threshold).db, id)
    ensures
      var w := Later(actions, id, more, threshold);
      || a == Call(ChangeHost(id, SetAck(false)))
      || !HasHost(Step(w, a, threshold).db.hosts, id)
      || (a.Clear? && ClearingHost(w, a.t, id) &&
          (w.threads[a.t].pc.since >= AckTime(actions, threshold) || ClearingHost(Play(actions, threshold), a.t, id)))
  {
    var w := Later(actions, id, more, threshold);
    PlaySound(actions + [Ack(id)] + more, threshold);
    assert Sound(w.db);
    StepSoundWorld(w, a, threshold);
    assert id < w.db.nextHost by { AckedIsStored(w.db, id); }
    match a {
      case Call(op) =>
        if HasHost(Step(w, a, threshold).db.hosts, id) && op != ChangeHost(id, SetAck(false)) {
          CallKeepsAck(w.db, op, threshold, id);
        }
      case Spawn(_, _, _, _, _, _, _) =>
      case Record(t) =>
        RecordKeepsHosts(w, t, threshold);
        SameHostsSameAcks(w.db, Step(w, a, threshold).db);
      case Clear(t) =>
        if t in w.threads && w.threads[t].pc.Clearing? {
          AckedAfterClear(w.db, w.threads[t].key.host, id);
          if w.threads[t].pc.since < AckTime(actions, threshold) { OldClearingLater(actions, id, more, t, threshold); }
        }
    }
  }

  lemma AckedIsStored(db: Db, id: nat)
    requires UniqueHosts(db.hosts, db.nextHost) && Acknowledged(db, id)
    ensures HasHost(db.hosts, id) && id < db.nextHost
  {
  }

  // ---- how often a host is raised again ----

  function Count(s: seq<nat>, id: nat): nat {
    if s == [] then 0 else Count(s[..|s| - 1], id) + if s[|s| - 1] == id then 1 else 0
  }

  /** How many requests to acknowledge the host a run contains. */
  function Requests(actions: seq<Action>, id: nat): nat {
    if actions == [] then 0
    else
      var a := actions[|actions| - 1];
      Requests(actions[..|actions| - 1], id) + if a.Call? && AcksHost(a.op) && a.op.hostId == id then 1 else 0
  }

  lemma RecordKeepsHosts(w: World, t: nat, threshold: nat)
    ensures Step(w, Record(t), threshold).db.hosts == w.db.hosts && Step(w, Record(t), threshold).reflags == w.reflags
  {
  }

  lemma ClearCounts(w: World, t: nat, threshold: nat, id: nat)
    requires t in w.threads && w.threads[t].pc.Clearing?
    ensures var w' := Step(w, Clear(t), threshold);
            Count(w'.reflags, id) + (if Acknowledged(w'.db, id) then 1 else 0) ==
            Count(w.reflags, id) + (if Acknowledged(w.db, id) then 1 else 0)
  {
    hide Acknowledged, EditHost;
    var h := w.threads[t].key.host;
    assert (w.reflags + [h])[..|w.reflags|] == w.reflags && w.reflags + [] == w.reflags;
    AckedAfterClear(w.db, h, id);
  }

  /** Main: each acknowledgement is taken back at most once: a host's priority events never
      outnumber its acknowledge requests, and one fewer while it is acknowledged. */
  lemma {:induction false} OneReflagPerAck(actions: seq<Action>, threshold: nat, id: nat)
    ensures var w := Play(actions, threshold);
            Count(w.reflags, id) + (if Acknowledged(w.db, id) then 1 else 0) <= Requests(actions, id)
  {
    if actions != [] {
      hide Acknowledged, Apply, EditHost, UpsertPort;
      var init, a := actions[..|actions| - 1], actions[|actions| - 1];
      OneReflagPerAck(init, threshold, id);
      var w := Play(init, threshold);
      var w' := Step(w, a, threshold);
      match a {
        case Spawn(_, _, _, _, _, _, _) => SameHostsSameAcks(w.db, w'.db);
        case Record(t) =>
          RecordKeepsHosts(w, t, threshold);
          SameHostsSameAcks(w.db, w'.db);
        case Clear(t) => if t in w.threads && w.threads[t].pc.Clearing? { ClearCounts(w, t, threshold, id); }
        case Call(op) =>
          if Acknowledged(w'.db, id) { AckedHostBefore(w.db, op, threshold, id); }
      }
    }
  }
}
