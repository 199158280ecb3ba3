/** The shared ICMP socket: any number of `Ping` calls and one reader, interleaved at the granularity of
    their atomic actions. Replies are matched by sequence number and source address, and on a raw
    socket by identifier. A clock dates registrations and reads; no step depends on it. */
module Icmp {
  import opened Options

  const COUNTER := 0x1_0000_0000
  const SEQUENCES := 0x1_0000

  /** What the reader gets off the socket; `echoReply` covers parsing, the ICMP type and the body. */
  datatype Packet = Packet(echoReply: bool, id: nat, seqNo: nat, ip: string)

  /** A packet with the time it was read; `asked` is when its waiter was looked up. */
  datatype Mail = Mail(packet: Packet, read: nat, asked: nat)

  datatype Pc = Started | Registered | Sent | Leaving(result: bool) | Finished(result: bool)

  /** One `Ping` call. `inbox` is its channel of capacity one, `got` the mail that made it return true. */
  datatype Ping = Ping(ip: string, seqNo: nat, pc: Pc, registered: nat, inbox: Option<Mail>, got: Option<Mail>)

  datatype Waiter = Waiter(ip: string, owner: nat)

  datatype Reader = Idle | Holding(packet: Packet, read: nat) | Delivering(mail: Mail, owner: nat)

  datatype Config = Config(usingUDP: bool, id: nat)

  datatype State = State(
    counter: nat, waiters: map<nat, Waiter>, pings: seq<Ping>, reader: Reader, clock: nat)

  const Init: State := State(0, map[], [], Idle, 0)

  datatype Action =
    | Begin(ip: string)
    | Register(k: nat)
    | Write(k: nat, ok: bool)
    | Receive(k: nat)
    | TimeOut(k: nat)
    | Unregister(k: nat)
    | Read(packet: Packet)
    | Lookup
    | Deliver

  predicate Enabled(s: State, a: Action) {
    match a
    case Begin(_) => true
    case Register(k) => k < |s.pings| && s.pings[k].pc == Started
    case Write(k, _) => k < |s.pings| && s.pings[k].pc == Registered
    case Receive(k) => k < |s.pings| && s.pings[k].pc == Sent && s.pings[k].inbox.Some?
    case TimeOut(k) => k < |s.pings| && s.pings[k].pc == Sent
    case Unregister(k) => k < |s.pings| && s.pings[k].pc.Leaving?
    case Read(_) => s.reader.Idle?
    case Lookup => s.reader.Holding?
    case Deliver => s.reader.Delivering? && s.reader.owner < |s.pings|
  }

  predicate Ours(p: Packet, c: Config) {
    p.echoReply && (c.usingUDP || p.id == c.id)
  }

  function Change(s: State, k: nat, p: Ping): State
    requires k < |s.pings|
  {
    s.(pings := s.pings[k := p], clock := s.clock + 1)
  }

  function Step(s: State, a: Action, c: Config): State
    requires Enabled(s, a)
  {
    match a
    case Begin(ip) =>
      var counter := (s.counter + 1) % COUNTER;
      s.(counter := counter, clock := s.clock + 1,
         pings := s.pings + [Ping(ip, counter % SEQUENCES, Started, 0, None, None)])
    case Register(k) =>
      var p := s.pings[k];
      Change(s, k, p.(pc := Registered, registered := s.clock)).(waiters := s.waiters[p.seqNo := Waiter(p.ip, k)])
    case Write(k, ok) => Change(s, k, s.pings[k].(pc := if ok then Sent else Leaving(false)))
    case Receive(k) => Change(s, k, s.pings[k].(pc := Leaving(true), inbox := None, got := s.pings[k].inbox))
    case TimeOut(k) => Change(s, k, s.pings[k].(pc := Leaving(false)))
    case Unregister(k) =>
      Change(s, k, s.pings[k].(pc := Finished(s.pings[k].pc.result))).(waiters := s.waiters - {s.pings[k].seqNo})
    case Read(packet) =>
      s.(clock := s.clock + 1, reader := if Ours(packet, c) then Holding(packet, s.clock) else Idle)
    case Lookup =>
      var p := s.reader.packet;
      s.(clock := s.clock + 1, reader :=
        if p.seqNo in s.waiters && s.waiters[p.seqNo].ip == p.ip
        then Delivering(Mail(p, s.reader.read, s.clock), s.waiters[p.seqNo].owner) else Idle)
    case Deliver =>
      var p := s.pings[s.reader.owner];
      Change(s, s.reader.owner, p.(inbox := if p.inbox.None? then Some(s.reader.mail) else p.inbox)).(reader := Idle)
  }

  /** A disabled action is skipped. */
  function Play(s: State, actions: seq<Action>, c: Config): State {
    if actions == [] then s
    else
      var t := Play(s, actions[..|actions| - 1], c);
      var a := actions[|actions| - 1];
      if Enabled(t, a) then Step(t, a, c) else t
  }

  lemma {:induction false} PlayConcat(s: State, a: seq<Action>, b: seq<Action>, c: Config)
    ensures Play(s, a + b, c) == Play(Play(s, a, c), b, c)
  {
    if b == [] {
      assert a + b == a;
    } else {
      assert (a + b)[..|a + b| - 1] == a + b[..|b| - 1];
      PlayConcat(s, a, b[..|b| - 1], c);
    }
  }

  // ---- what a true result proves ----

  /** `m` is a reply to `p`: its own sequence number, address and (raw sockets) identifier. */
  predicate Answers(m: Packet, p: Ping, c: Config) {
    Ours(m, c) && m.seqNo == p.seqNo && m.ip == p.ip
  }

  ghost predicate GoodMail(m: Mail, p: Ping, c: Config) {
    Answers(m.packet, p, c) && p.pc != Started && p.registered <= m.asked && m.read <= m.asked
  }

  ghost predicate MailsGood(s: State, c: Config) {
    forall k | 0 <= k < |s.pings| ::
      && (s.pings[k].inbox.Some? ==> GoodMail(s.pings[k].inbox.value, s.pings[k], c))
      && (s.pings[k].got.Some? ==> GoodMail(s.pings[k].got.value, s.pings[k], c))
      && ((s.pings[k].pc.Leaving? || s.pings[k].pc.Finished?) && s.pings[k].pc.result ==> s.pings[k].got.Some?)
  }

  ghost predicate WaitersGood(s: State) {
    forall q | q in s.waiters ::
      var w := s.waiters[q];
      w.owner < |s.pings| && s.pings[w.owner].seqNo == q && s.pings[w.owner].ip == w.ip &&
      s.pings[w.owner].pc != Started && s.pings[w.owner].registered <= s.clock
  }

  ghost predicate ReaderGood(s: State, c: Config) {
    match s.reader
    case Idle => true
    case Holding(p, read) => Ours(p, c) && read < s.clock
    case Delivering(m, owner) => owner < |s.pings| && GoodMail(m, s.pings[owner], c) && m.read < s.clock
  }

  ghost predicate Inv(s: State, c: Config) {
    MailsGood(s, c) && WaitersGood(s) && ReaderGood(s, c)
  }

  lemma StepInv(s: State, a: Action, c: Config)
    requires Inv(s, c) && Enabled(s, a)
    ensures Inv(Step(s, a, c), c)
  {
    StepWaiters(s, a, c);
    StepMails(s, a, c);
    StepReader(s, a, c);
    hide *;
    hide Inv;
    InvParts(Step(s, a, c), c);
  }

  lemma InvParts(s: State, c: Config)
    requires MailsGood(s, c) && WaitersGood(s) && ReaderGood(s, c)
    ensures Inv(s, c)
  {
  }

  lemma StepWaiters(s: State, a: Action, c: Config)
    requires Inv(s, c) && Enabled(s, a)
    ensures WaitersGood(Step(s, a, c))
  {
    hide MailsGood, ReaderGood;
  }

  lemma StepMails(s: State, a: Action, c: Config)
    requires Inv(s, c) && Enabled(s, a)
    ensures MailsGood(Step(s, a, c), c)
  {
    hide WaitersGood;
  }

  lemma StepReader(s: State, a: Action, c: Config)
    requires Inv(s, c) && Enabled(s, a)
    ensures ReaderGood(Step(s, a, c), c)
  {
    hide MailsGood;
  }

  lemma {:induction false} PlayInv(s: State, actions: seq<Action>, c: Config)
    requires Inv(s, c)
    ensures Inv(Play(s, actions, c), c)
  {
    if actions != [] {
      hide Inv, Step;
      PlayInv(s, actions[..|actions| - 1], c);
      var t, a := Play(s, actions[..|actions| - 1], c), actions[|actions| - 1];
      if Enabled(t, a) { StepInv(t, a, c); }
    }
  }

  ghost predicate Returned(s: State, k: nat, result: bool) {
    k < |s.pings| && (s.pings[k].pc == Leaving(result) || s.pings[k].pc == Finished(result))
  }

  /** Main: in every interleaving, and however many pings are outstanding, `Ping` returns true only on an echo
      reply with its own sequence number and source and, on a raw socket, the process's identifier, that was
      matched after it registered. */
  lemma TrueMeansAnswered(actions: seq<Action>, c: Config, k: nat)
    requires Returned(Play(Init, actions, c), k, true)
    ensures var p := Play(Init, actions, c).pings[k];
            && p.got.Some? && p.registered <= p.got.value.asked
            && p.got.value.packet.echoReply && p.got.value.packet.seqNo == p.seqNo && p.got.value.packet.ip == p.ip
            && (c.usingUDP || p.got.value.packet.id == c.id)
  {
    PlayInv(Init, actions, c);
  }

  /** Main: and it does return true on such a reply, if nothing comes in between: from any reachable state in
      which the ping waits, its entry is in the table and the reader is idle, reading the reply, looking it up
      and delivering it lets the ping leave with true. */
  lemma AnswerGetsThrough(actions: seq<Action>, c: Config, k: nat, packet: Packet)
    requires var s := Play(Init, actions, c);
             && k < |s.pings| && s.pings[k].pc == Sent && s.pings[k].inbox == None && s.reader == Idle
             && s.pings[k].seqNo in s.waiters && s.waiters[s.pings[k].seqNo] == Waiter(s.pings[k].ip, k)
             && packet.echoReply && packet.seqNo == s.pings[k].seqNo && packet.ip == s.pings[k].ip
             && (c.usingUDP || packet.id == c.id)
    ensures var s' := Play(Play(Init, actions, c), [Read(packet), Lookup, Deliver], c);
            && Enabled(s', Receive(k)) && Returned(Step(s', Receive(k), c), k, true)
            && Enabled(Step(s', Receive(k), c), Unregister(k))
            && Step(Step(s', Receive(k), c), Unregister(k), c).pings[k].pc == Finished(true)
  {
    var s := Play(Init, actions, c);
    var steps := [Read(packet), Lookup, Deliver];
    assert steps[..2] == [Read(packet), Lookup] && steps[..2][..1] == [Read(packet)] && steps[..2][..1][..0] == [];
    assert Play(s, [], c) == s;
    assert Play(s, steps[..2][..1], c) == Step(s, Read(packet), c);
    assert Play(s, steps[..2], c) == Step(Step(s, Read(packet), c), Lookup, c);
    assert Play(s, steps, c) == Step(Step(Step(s, Read(packet), c), Lookup, c), Deliver, c);
  }

  /** No ping changes its result. */
  lemma {:induction false} ResultsStay(s: State, actions: seq<Action>, c: Config, k: nat, result: bool)
    requires Returned(s, k, result)
    ensures Returned(Play(s, actions, c), k, result)
  {
    if actions != [] { ResultsStay(s, actions[..|actions| - 1], c, k, result); }
  }

  /** Main: a ping whose request cannot be written, or that gives up waiting, returns false whatever happens
      afterwards, a late reply included. */
  lemma NoAnswerIsFalse(s: State, a: Action, more: seq<Action>, c: Config, k: nat)
    requires k < |s.pings|
    requires (s.pings[k].pc == Registered && a == Write(k, false)) || (s.pings[k].pc == Sent && a == TimeOut(k))
    ensures Enabled(s, a) && Returned(Play(Step(s, a, c), more, c), k, false)
  {
    ResultsStay(Step(s, a, c), more, c, k, false);
  }

  /** The addresses the pings of a run were started for. */
  function Begun(actions: seq<Action>): seq<string> {
    if actions == [] then []
    else
      Begun(actions[..|actions| - 1]) +
      if actions[|actions| - 1].Begin? then [actions[|actions| - 1].ip] else []
  }

  /** Every ping waits for the address it was started for, under its number masked to 16 bits. */
  lemma {:induction false} PingsAsBegun(actions: seq<Action>, c: Config)
    ensures var s := Play(Init, actions, c);
            && |s.pings| == |Begun(actions)|
            && forall k | 0 <= k < |s.pings| ::
                s.pings[k].ip == Begun(actions)[k] && s.pings[k].seqNo == (k + 1) % 65536
  {
    PlayNumbered(actions, c);
    if actions != [] {
      hide Numbered;
      PingsAsBegun(actions[..|actions| - 1], c);
    }
  }

  lemma {:induction false} PlayNumbered(actions: seq<Action>, c: Config)
    ensures Numbered(Play(Init, actions, c))
  {
    if actions != [] {
      hide Numbered, Step;
      var t, a := Play(Init, actions[..|actions| - 1], c), actions[|actions| - 1];
      PlayNumbered(actions[..|actions| - 1], c);
      if Enabled(t, a) { StepNumbered(t, a, c); }
    } else {
      assert Numbered(Init);
    }
  }

  // ---- when the reply may have been read before the ping registered ----

  /** The reader already holds a reply to ping `k` and has not looked it up yet. */
  predicate HoldsReply(s: State, k: nat, c: Config) {
    k < |s.pings| && s.reader.Holding? && Answers(s.reader.packet, s.pings[k], c)
  }

  /** Ping `k` returned true on a reply read before it registered. */
  ghost predicate Stale(s: State, k: nat) {
    Returned(s, k, true) && s.pings[k].got.Some? && s.pings[k].got.value.read < s.pings[k].registered
  }

  ghost predicate CanGoStale(s: State, k: nat, c: Config) {
    exists actions :: Stale(Play(s, actions, c), k)
  }

  /** Nothing read before `k` registered can still reach it. */
  ghost predicate Fresh(s: State, k: nat, c: Config) {
    && k < |s.pings| && s.pings[k].pc != Started && s.pings[k].registered <= s.clock
    && (s.pings[k].inbox.Some? ==> s.pings[k].inbox.value.read >= s.pings[k].registered)
    && (s.pings[k].got.Some? ==> s.pings[k].got.value.read >= s.pings[k].registered)
    && (HoldsReply(s, k, c) ==> s.reader.read >= s.pings[k].registered)
    && (s.reader.Delivering? && s.reader.owner == k ==> s.reader.mail.read >= s.pings[k].registered)
  }

  lemma StepFresh(s: State, a: Action, k: nat, c: Config)
    requires Inv(s, c) && Fresh(s, k, c) && Enabled(s, a)
    ensures Fresh(Step(s, a, c), k, c)
  {
  }

  lemma {:induction false} FreshForever(s: State, actions: seq<Action>, k: nat, c: Config)
    requires Inv(s, c) && Fresh(s, k, c)
    ensures Fresh(Play(s, actions, c), k, c)
  {
    if actions != [] {
      hide Inv, Step, Fresh;
      var t, a := Play(s, actions[..|actions| - 1], c), actions[|actions| - 1];
      FreshForever(s, actions[..|actions| - 1], k, c);
      PlayInv(s, actions[..|actions| - 1], c);
      if Enabled(t, a) { StepFresh(t, a, k, c); }
    }
  }

  /** Main: a ping can return true on a reply read before it registered if and only if, as it
      registers, the reader is between reading a reply to it and looking that reply up. */
  lemma StaleIffReaderHolds(actions: seq<Action>, k: nat, c: Config)
    requires Enabled(Play(Init, actions, c), Register(k))
    ensures var s := Play(Init, actions, c);
            CanGoStale(Step(s, Register(k), c), k, c) <==> HoldsReply(s, k, c)
  {
    var s := Play(Init, actions, c);
    PlayInv(Init, actions, c);
    var s1 := Step(s, Register(k), c);
    StepInv(s, Register(k), c);
    if HoldsReply(s, k, c) {
      StaleRun(s, k, c);
    } else if CanGoStale(s1, k, c) {
      var more :| Stale(Play(s1, more, c), k);
      assert s.pings[k].inbox.None? && s.pings[k].got.None?;
      FreshForever(s1, more, k, c);
    }
  }

  lemma StaleRun(s: State, k: nat, c: Config)
    requires Inv(s, c) && Enabled(s, Register(k)) && HoldsReply(s, k, c)
    ensures CanGoStale(Step(s, Register(k), c), k, c)
  {
    var s1 := Step(s, Register(k), c);
    var s2 := Step(s1, Lookup, c);
    var s3 := Step(s2, Deliver, c);
    assert s3.pings[k].inbox.Some? && s3.pings[k].inbox.value.read == s.reader.read;
    var s4 := Step(s3, Write(k, true), c);
    var s5 := Step(s4, Receive(k), c);
    PlayFour(s1, Lookup, Deliver, Write(k, true), Receive(k), c);
    hide Step, Enabled, Play, Inv;
    assert Stale(Play(s1, [Lookup, Deliver, Write(k, true), Receive(k)], c), k);
  }

  lemma PlayFour(s: State, a1: Action, a2: Action, a3: Action, a4: Action, c: Config)
    requires Enabled(s, a1) && Enabled(Step(s, a1, c), a2) && Enabled(Step(Step(s, a1, c), a2, c), a3)
    requires Enabled(Step(Step(Step(s, a1, c), a2, c), a3, c), a4)
    ensures Play(s, [a1, a2, a3, a4], c) == Step(Step(Step(Step(s, a1, c), a2, c), a3, c), a4, c)
  {
    hide Step, Enabled;
    assert [a1, a2, a3, a4][..3] == [a1, a2, a3] && [a1, a2, a3][..2] == [a1, a2] && [a1, a2][..1] == [a1] &&
           [a1][..0] == [];
    assert Play(s, [], c) == s;
    assert Play(s, [a1], c) == Step(s, a1, c);
    assert Play(s, [a1, a2], c) == Step(Step(s, a1, c), a2, c);
    assert Play(s, [a1, a2, a3], c) == Step(Step(Step(s, a1, c), a2, c), a3, c);
  }

  /** A run that gets there: the reply is read between a ping's start and its registration. */
  lemma EarlyReplyGoesStale(ip: string, c: Config)
    ensures var s := Play(Init, [Begin(ip), Read(Packet(true, c.id, 1, ip))], c);
            Enabled(s, Register(0)) && HoldsReply(s, 0, c) && CanGoStale(Step(s, Register(0), c), 0, c)
  {
    var actions := [Begin(ip), Read(Packet(true, c.id, 1, ip))];
    assert actions[..1] == [Begin(ip)] && actions[..1][..0] == [];
    assert Play(Init, [], c) == Init;
    assert Play(Init, actions[..1], c) == Step(Init, Begin(ip), c);
    StaleIffReaderHolds(actions, 0, c);
  }

  // ---- one reply never answers two pings ----

  ghost predicate Holds(p: Ping, read: nat) {
    (p.inbox.Some? && p.inbox.value.read == read) || (p.got.Some? && p.got.value.read == read)
  }

  ghost predicate InHand(r: Reader, read: nat) {
    (r.Holding? && r.read == read) || (r.Delivering? && r.mail.read == read)
  }

  ghost predicate Single(s: State) {
    && (forall i, j, t: nat |
          0 <= i < |s.pings| && 0 <= j < |s.pings| && Holds(s.pings[i], t) && Holds(s.pings[j], t) :: i == j)
    && (forall i, t: nat | 0 <= i < |s.pings| && Holds(s.pings[i], t) :: !InHand(s.reader, t) && t < s.clock)
  }

  lemma HoldsFrom(s: State, a: Action, c: Config, i: nat, t: nat)
    requires Enabled(s, a) && i < |Step(s, a, c).pings| && Holds(Step(s, a, c).pings[i], t)
    ensures (i < |s.pings| && Holds(s.pings[i], t)) || (a == Deliver && i == s.reader.owner && InHand(s.reader, t))
  {
  }

  lemma HandFrom(s: State, a: Action, c: Config, t: nat)
    requires Enabled(s, a)
    ensures InHand(Step(s, a, c).reader, t) ==> (a != Deliver && InHand(s.reader, t)) || (a.Read? && t == s.clock)
    ensures InHand(s.reader, t) && ReaderGood(s, c) ==> t < s.clock
  {
  }

  lemma StepSingle(s: State, a: Action, c: Config)
    requires Single(s) && ReaderGood(s, c) && Enabled(s, a)
    ensures Single(Step(s, a, c))
  {
    var s' := Step(s, a, c);
    hide Holds;
    forall i, t: nat | 0 <= i < |s'.pings| && Holds(s'.pings[i], t) ensures !InHand(s'.reader, t) && t < s'.clock {
      HoldsFrom(s, a, c, i, t);
      HandFrom(s, a, c, t);
    }
    forall i, j, t: nat | 0 <= i < |s'.pings| && 0 <= j < |s'.pings| && Holds(s'.pings[i], t) && Holds(s'.pings[j], t)
      ensures i == j
    {
      HoldsFrom(s, a, c, i, t);
      HoldsFrom(s, a, c, j, t);
    }
  }

  lemma {:induction false} PlaySingle(actions: seq<Action>, c: Config)
    ensures Single(Play(Init, actions, c))
  {
    if actions != [] {
      hide Inv, Step, Single;
      var t, a := Play(Init, actions[..|actions| - 1], c), actions[|actions| - 1];
      PlaySingle(actions[..|actions| - 1], c);
      InitInv(c);
      PlayInv(Init, actions[..|actions| - 1], c);
      if Enabled(t, a) { StepSingle(t, a, c); }
    }
  }

  lemma InitInv(c: Config)
    ensures Inv(Init, c)
  {
  }

  /** Main: two pings that returned true did so on two different replies. */
  lemma RepliesNotShared(actions: seq<Action>, c: Config, i: nat, j: nat)
    requires i != j && Returned(Play(Init, actions, c), i, true) && Returned(Play(Init, actions, c), j, true)
    ensures var s := Play(Init, actions, c);
            s.pings[i].got.Some? && s.pings[j].got.Some? && s.pings[i].got.value.read != s.pings[j].got.value.read
  {
    TrueMeansAnswered(actions, c, i);
    TrueMeansAnswered(actions, c, j);
    PlaySingle(actions, c);
    var s := Play(Init, actions, c);
    assert Holds(s.pings[i], s.pings[i].got.value.read);
  }

  // ---- the waiter table and the wrapping sequence ----

  ghost predicate Numbered(s: State) {
    && s.counter == |s.pings| % COUNTER
    && forall k | 0 <= k < |s.pings| :: s.pings[k].seqNo == (k + 1) % SEQUENCES
  }

  /** The mask of a wrapped counter is the mask of the unwrapped one. */
  lemma WrapHarmless(n: nat)
    ensures ((n % COUNTER) + 1) % COUNTER == (n + 1) % COUNTER
    ensures ((n + 1) % COUNTER) % SEQUENCES == (n + 1) % SEQUENCES
  {
    var q := (n + 1) / COUNTER;
    assert n + 1 == q * COUNTER + (n + 1) % COUNTER;
    assert q * COUNTER == (q * SEQUENCES) * SEQUENCES;
  }

  lemma StepNumbered(s: State, a: Action, c: Config)
    requires Numbered(s) && Enabled(s, a)
    ensures Numbered(Step(s, a, c))
  {
    if a.Begin? { WrapHarmless(|s.pings|); }
  }

  predicate Outstanding(p: Ping) {
    !p.pc.Finished?
  }

  predicate InTable(p: Ping) {
    p.pc.Registered? || p.pc.Sent? || p.pc.Leaving?
  }

  /** Every outstanding ping is among the `n` most recently started. */
  ghost predicate Window(s: State, n: nat) {
    forall k | 0 <= k < |s.pings| && Outstanding(s.pings[k]) :: |s.pings| - k <= n
  }

  /** The table holds exactly one entry per registered ping: its own. */
  ghost predicate Exact(s: State) {
    && (forall k | 0 <= k < |s.pings| && InTable(s.pings[k]) ::
          s.pings[k].seqNo in s.waiters && s.waiters[s.pings[k].seqNo] == Waiter(s.pings[k].ip, k))
    && (forall q | q in s.waiters ::
          s.waiters[q].owner < |s.pings| && InTable(s.pings[s.waiters[q].owner]) &&
          s.pings[s.waiters[q].owner].seqNo == q)
  }

  lemma NearSequencesDiffer(j: nat, k: nat)
    requires j < k < j + SEQUENCES
    ensures (j + 1) % SEQUENCES != (k + 1) % SEQUENCES
  {
  }

  lemma OthersElsewhere(s: State, k: nat)
    requires Numbered(s) && Window(s, SEQUENCES) && k < |s.pings| && Outstanding(s.pings[k])
    ensures forall j | 0 <= j < |s.pings| && j != k && InTable(s.pings[j]) :: s.pings[j].seqNo != s.pings[k].seqNo
  {
    forall j | 0 <= j < |s.pings| && j != k && InTable(s.pings[j]) ensures s.pings[j].seqNo != s.pings[k].seqNo {
      if j < k { NearSequencesDiffer(j, k); } else { NearSequencesDiffer(k, j); }
    }
  }

  lemma StepExact(s: State, a: Action, c: Config)
    requires Numbered(s) && Exact(s) && Window(s, SEQUENCES) && Enabled(s, a)
    ensures Exact(Step(s, a, c))
  {
    if a.Register? || a.Unregister? {
      OthersElsewhere(s, a.k);
    }
    hide Numbered, Window;
  }

  /** All states of the run stay inside the window. */
  ghost predicate StaysInWindow(actions: seq<Action>, c: Config) {
    forall n | 0 <= n <= |actions| :: Window(Play(Init, actions[..n], c), SEQUENCES)
  }

  /** Main: while every outstanding ping is among the last 65536 started, the table is exact, however
      often the 32-bit counter and the 16-bit sequence have wrapped. */
  lemma {:induction false} TableExact(actions: seq<Action>, c: Config)
    requires StaysInWindow(actions, c)
    ensures Numbered(Play(Init, actions, c)) && Exact(Play(Init, actions, c))
  {
    if actions != [] {
      var init, a := actions[..|actions| - 1], actions[|actions| - 1];
      forall n | 0 <= n <= |init| ensures Window(Play(Init, init[..n], c), SEQUENCES) {
        assert init[..n] == actions[..n];
      }
      TableExact(init, c);
      var t := Play(Init, init, c);
      assert init[..|init|] == init;
      hide Numbered, Exact, Window, Step;
      if Enabled(t, a) {
        StepNumbered(t, a, c);
        StepExact(t, a, c);
      }
    }
  }

  /** Main: in the window, a deferred delete removes its own entry and no other. */
  lemma DeleteRemovesOwn(actions: seq<Action>, c: Config, k: nat)
    requires StaysInWindow(actions, c) && Enabled(Play(Init, actions, c), Unregister(k))
    ensures var s, s' := Play(Init, actions, c), Step(Play(Init, actions, c), Unregister(k), c);
            && (exists q :: q in s.waiters && s.waiters[q].owner == k)
            && (forall q :: q in s'.waiters <==> q in s.waiters && s.waiters[q].owner != k)
            && (forall q | q in s'.waiters :: s'.waiters[q] == s.waiters[q])
  {
    TableExact(actions, c);
    var s := Play(Init, actions, c);
    assert s.pings[k].seqNo in s.waiters;
  }

  /** Main: the window is what is needed. Registering keeps an exact table exact if and only if no
      registered ping is a multiple of 65536 starts away. */
  lemma ExactIffNoCollision(s: State, k: nat, c: Config)
    requires Numbered(s) && Exact(s) && Enabled(s, Register(k))
    ensures Exact(Step(s, Register(k), c)) <==>
            forall j | 0 <= j < |s.pings| && InTable(s.pings[j]) :: (k - j) % SEQUENCES != 0
  {
    var s' := Step(s, Register(k), c);
    forall j | 0 <= j < |s.pings|
      ensures (k - j) % SEQUENCES == 0 <==> s.pings[j].seqNo == s.pings[k].seqNo
    {
      Congruent(j, k);
    }
    if j :| 0 <= j < |s.pings| && InTable(s.pings[j]) && (k - j) % SEQUENCES == 0 {
      assert InTable(s'.pings[j]) && s'.waiters[s'.pings[j].seqNo].owner == k;
    }
  }

  /** `n` pings started and registered, one after the other. */
  function Crowd(n: nat, ip: string): seq<Action> {
    if n == 0 then [] else Crowd(n - 1, ip) + [Begin(ip), Register(n - 1)]
  }

  lemma BeginAndRegister(s: State, n: nat, ip: string, c: Config)
    requires |s.pings| == n < SEQUENCES && Numbered(s) && Exact(s)
    requires forall k | 0 <= k < n :: s.pings[k].pc == Registered
    ensures var s' := Play(s, [Begin(ip), Register(n)], c);
            && |s'.pings| == n + 1 && Numbered(s') && Exact(s')
            && (forall k | 0 <= k <= n :: s'.pings[k].pc == Registered)
  {
    var actions := [Begin(ip), Register(n)];
    assert actions[..1] == [Begin(ip)] && actions[..1][..0] == [];
    assert Play(s, [], c) == s;
    var s1 := Step(s, Begin(ip), c);
    assert Play(s, actions[..1], c) == s1;
    StepNumbered(s, Begin(ip), c);
    StepNumbered(s1, Register(n), c);
    StepExact(s, Begin(ip), c);
    StepExact(s1, Register(n), c);
  }

  lemma {:induction false} CrowdRegistered(n: nat, ip: string, c: Config)
    requires n <= SEQUENCES
    ensures var s := Play(Init, Crowd(n, ip), c);
            && |s.pings| == n && Numbered(s) && Exact(s)
            && (forall k | 0 <= k < n :: s.pings[k].pc == Registered)
  {
    if n > 0 {
      hide Numbered, Exact, Step;
      CrowdRegistered(n - 1, ip, c);
      BeginAndRegister(Play(Init, Crowd(n - 1, ip), c), n - 1, ip, c);
      PlayConcat(Init, Crowd(n - 1, ip), [Begin(ip), Register(n - 1)], c);
    }
  }

  /** A run that gets there: with 65536 pings registered, the next one takes over the first one's entry. */
  lemma CrowdCollides(ip: string, c: Config)
    ensures var s := Play(Init, Crowd(SEQUENCES, ip) + [Begin(ip)], c);
            Exact(s) && Enabled(s, Register(SEQUENCES)) && !Exact(Step(s, Register(SEQUENCES), c))
  {
    var s := Play(Init, Crowd(SEQUENCES, ip), c);
    CrowdRegistered(SEQUENCES, ip, c);
    PlayConcat(Init, Crowd(SEQUENCES, ip), [Begin(ip)], c);
    assert [Begin(ip)][..0] == [];
    assert Play(s, [], c) == s;
    var s1 := Step(s, Begin(ip), c);
    assert Play(s, [Begin(ip)], c) == s1;
    StepNumbered(s, Begin(ip), c);
    StepExact(s, Begin(ip), c);
    hide Numbered, Exact, Play, Crowd;
    ExactIffNoCollision(s1, SEQUENCES, c);
    assert InTable(s1.pings[0]) && (SEQUENCES - 0) % SEQUENCES == 0;
  }

  lemma Congruent(j: nat, k: nat)
    ensures (k - j) % SEQUENCES == 0 <==> (j + 1) % SEQUENCES == (k + 1) % SEQUENCES
  {
    var a, b := (j + 1) / SEQUENCES, (k + 1) / SEQUENCES;
    var x, y := (j + 1) % SEQUENCES, (k + 1) % SEQUENCES;
    assert k - j == (b - a) * SEQUENCES + (y - x);
  }
}
