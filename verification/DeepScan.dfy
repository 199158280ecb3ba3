/** The per-host guard around on-demand deep scans: any number of callers, each of whose scans ends by
    publishing its finish and then releasing the guard. */
module DeepScan {

  datatype Pc = Entered | Refused | Announcing | Scanning | Releasing | Ended

  datatype Caller = Caller(host: nat, pc: Pc)

  datatype Event = Started(host: nat) | Finished(host: nat)

  datatype State = State(guard: set<nat>, callers: seq<Caller>, log: seq<Event>)

  const Init: State := State({}, [], [])

  datatype Action = Call(host: nat) | TryGuard(i: nat) | Announce(i: nat) | FinishScan(i: nat) | Release(i: nat)

  predicate At(s: State, i: nat, pc: Pc) {
    i < |s.callers| && s.callers[i].pc == pc
  }

  predicate Enabled(s: State, a: Action) {
    match a
    case Call(_) => true
    case TryGuard(i) => At(s, i, Entered)
    case Announce(i) => At(s, i, Announcing)
    case FinishScan(i) => At(s, i, Scanning)
    case Release(i) => At(s, i, Releasing)
  }

  function Move(s: State, i: nat, pc: Pc): State
    requires i < |s.callers|
  {
    s.(callers := s.callers[i := s.callers[i].(pc := pc)])
  }

  /** Testing and setting the guard is one critical section. */
  function Step(s: State, a: Action): State
    requires Enabled(s, a)
  {
    match a
    case Call(h) => s.(callers := s.callers + [Caller(h, Entered)])
    case TryGuard(i) =>
      if s.callers[i].host in s.guard then Move(s, i, Refused)
      else Move(s, i, Announcing).(guard := s.guard + {s.callers[i].host})
    case Announce(i) => Move(s, i, Scanning).(log := s.log + [Started(s.callers[i].host)])
    case FinishScan(i) => Move(s, i, Releasing).(log := s.log + [Finished(s.callers[i].host)])
    case Release(i) => Move(s, i, Ended).(guard := s.guard - {s.callers[i].host})
  }

  function Play(actions: seq<Action>): State {
    if actions == [] then Init
    else
      var s := Play(actions[..|actions| - 1]);
      if Enabled(s, actions[|actions| - 1]) then Step(s, actions[|actions| - 1]) else s
  }

  predicate Owns(c: Caller, h: nat) {
    c.host == h && (c.pc.Announcing? || c.pc.Scanning? || c.pc.Releasing?)
  }

  predicate IsOwner(s: State, i: int, h: nat) {
    0 <= i < |s.callers| && Owns(s.callers[i], h)
  }

  /** Whether the last event about `h` says a scan is under way. */
  function UnderWay(log: seq<Event>, h: nat): bool {
    if log == [] then false
    else if log[|log| - 1] == Started(h) then true
    else if log[|log| - 1] == Finished(h) then false
    else UnderWay(log[..|log| - 1], h)
  }

  /** Started and finished events of `h` take turns, beginning with a start. */
  ghost predicate Alternates(log: seq<Event>, h: nat) {
    forall i | 0 <= i < |log| ::
      && (log[i] == Started(h) ==> !UnderWay(log[..i], h))
      && (log[i] == Finished(h) ==> UnderWay(log[..i], h))
  }

  ghost predicate Guarded(s: State, h: nat) {
    && (forall i, j | IsOwner(s, i, h) && IsOwner(s, j, h) :: i == j)
    && (h in s.guard <==> exists i :: IsOwner(s, i, h))
    && (UnderWay(s.log, h) <==> exists i :: IsOwner(s, i, h) && s.callers[i].pc == Scanning)
    && Alternates(s.log, h)
  }

  lemma Append(log: seq<Event>, e: Event, h: nat)
    requires Alternates(log, h)
    requires (e == Started(h) ==> !UnderWay(log, h)) && (e == Finished(h) ==> UnderWay(log, h))
    ensures Alternates(log + [e], h)
    ensures UnderWay(log + [e], h) <==> e == Started(h) || (e != Finished(h) && UnderWay(log, h))
  {
    assert (log + [e])[..|log|] == log;
    forall i | 0 <= i < |log| ensures (log + [e])[..i] == log[..i] {}
  }

  lemma StepGuarded(s: State, a: Action, h: nat)
    requires Guarded(s, h) && Enabled(s, a)
    ensures Guarded(Step(s, a), h)
  {
    hide Alternates, UnderWay;
    var s' := Step(s, a);
    forall i | !(a.Call? && i == |s.callers|) && (a.Call? || i != a.i)
      ensures IsOwner(s', i, h) <==> IsOwner(s, i, h)
      ensures IsOwner(s, i, h) ==> s'.callers[i] == s.callers[i]
    {
    }
    match a {
      case Call(_) => assert !IsOwner(s', |s.callers|, h);
      case TryGuard(i) => assert IsOwner(s', i, h) <==> s.callers[i].host == h && h !in s.guard;
      case Announce(i) =>
        assert IsOwner(s, i, h) <==> s.callers[i].host == h;
        Append(s.log, Started(s.callers[i].host), h);
        assert IsOwner(s', i, h) <==> s.callers[i].host == h;
      case FinishScan(i) =>
        assert IsOwner(s, i, h) <==> s.callers[i].host == h;
        Append(s.log, Finished(s.callers[i].host), h);
        assert IsOwner(s', i, h) <==> s.callers[i].host == h;
      case Release(i) => assert IsOwner(s, i, h) <==> s.callers[i].host == h;
    }
  }

  /** Main: in every interleaving, at most one scan per host is between its start and its release,
      the guard says exactly which hosts have one, and a host's events strictly alternate. */
  lemma {:induction false} AlwaysGuarded(actions: seq<Action>, h: nat)
    ensures Guarded(Play(actions), h)
  {
    if actions != [] {
      hide Guarded, Step;
      var init, a := actions[..|actions| - 1], actions[|actions| - 1];
      AlwaysGuarded(init, h);
      if Enabled(Play(init), a) { StepGuarded(Play(init), a, h); }
    }
  }

  /** The guard is never leaked: once no scan of the host is in progress, the next caller gets it. */
  lemma GuardComesBack(actions: seq<Action>, i: nat)
    requires At(Play(actions), i, Entered)
    ensures var s := Play(actions);
            Step(s, TryGuard(i)).callers[i].pc == Refused <==>
              exists j :: IsOwner(s, j, s.callers[i].host)
  {
    AlwaysGuarded(actions, Play(actions).callers[i].host);
  }
}
