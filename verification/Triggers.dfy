/** The one scan loop and the five trigger channels of capacity one that any number of callers poke. */
module Triggers {

  /** `Regular` is the unforced cycle, which the interval timer and start-up also run. */
  datatype Mode = Regular | Quick | Mass | Deep | ReverseDns

  datatype Loop = Starting(mode: Mode) | Running(mode: Mode) | Selecting | Stopped

  datatype Event = Requested(mode: Mode) | Started(mode: Mode)

  /** `full` holds the modes whose channel has a token; `log` is the history. */
  datatype State = State(full: set<Mode>, loop: Loop, log: seq<Event>)

  /** `Run` opens with a regular cycle nobody asked for. */
  const Init: State := State({}, Starting(Regular), [])

  datatype Action = Trigger(mode: Mode) | Tick | Take(mode: Mode) | Start | Finish | Stop

  predicate Enabled(s: State, a: Action) {
    match a
    case Trigger(_) => true
    case Tick => s.loop == Selecting
    case Take(m) => s.loop == Selecting && m in s.full
    case Start => s.loop.Starting?
    case Finish => s.loop.Running?
    case Stop => s.loop == Selecting
  }

  /** A trigger on a full channel changes nothing but the history. */
  function Step(s: State, a: Action): State
    requires Enabled(s, a)
  {
    match a
    case Trigger(m) => s.(full := s.full + {m}, log := s.log + [Requested(m)])
    case Tick => s.(loop := Starting(Regular))
    case Take(m) => s.(full := s.full - {m}, loop := Starting(m))
    case Start => s.(loop := Running(s.loop.mode), log := s.log + [Started(s.loop.mode)])
    case Finish => s.(loop := Selecting)
    case Stop => s.(loop := Stopped)
  }

  function Play(actions: seq<Action>): State {
    if actions == [] then Init
    else
      var s := Play(actions[..|actions| - 1]);
      if Enabled(s, actions[|actions| - 1]) then Step(s, actions[|actions| - 1]) else s
  }

  ghost predicate RequestedAt(log: seq<Event>, m: Mode, i: int) {
    0 <= i < |log| && log[i] == Requested(m) && forall j | i < j < |log| :: log[j] != Started(m)
  }

  /** Somebody asked for a cycle of this mode and none has started since. */
  ghost predicate Pending(log: seq<Event>, m: Mode) {
    exists i :: RequestedAt(log, m, i)
  }

  lemma PendingAppend(log: seq<Event>, e: Event, m: Mode)
    requires Pending(log + [e], m)
    ensures e == Requested(m) || (Pending(log, m) && e != Started(m))
  {
    var i :| RequestedAt(log + [e], m, i);
    assert (log + [e])[|log|] == e;
    if i < |log| {
      forall j | i < j < |log| ensures log[j] != Started(m) { assert (log + [e])[j] == log[j]; }
      assert RequestedAt(log, m, i);
    }
  }

  /** Main: coalescing loses no request: an unanswered one still fills its channel, or the loop has
      taken the token and is about to start that very cycle. */
  lemma {:induction false} NoRequestLost(actions: seq<Action>, m: Mode)
    ensures var s := Play(actions); Pending(s.log, m) ==> m in s.full || s.loop == Starting(m)
  {
    if actions != [] {
      hide Pending;
      var init, a := actions[..|actions| - 1], actions[|actions| - 1];
      NoRequestLost(init, m);
      var s := Play(init);
      if Enabled(s, a) && Pending(Step(s, a).log, m) {
        match a {
          case Trigger(n) => PendingAppend(s.log, Requested(n), m);
          case Start => PendingAppend(s.log, Started(s.loop.mode), m);
          case _ =>
        }
      }
    } else {
      assert Play([]).log == [];
    }
  }

  function Count(log: seq<Event>, e: Event): nat {
    if log == [] then 0 else Count(log[..|log| - 1], e) + if log[|log| - 1] == e then 1 else 0
  }

  lemma CountAppend(log: seq<Event>, x: Event, e: Event)
    ensures Count(log + [x], e) == Count(log, e) + if x == e then 1 else 0
  {
    assert (log + [x])[..|log|] == log;
  }

  /** Main: no forced cycle starts unasked: starts, plus tokens still on their way to one, never
      outnumber the requests. */
  lemma {:induction false} NoCycleUnasked(actions: seq<Action>, m: Mode)
    requires m != Regular
    ensures Asked(Play(actions), m)
  {
    if actions != [] {
      hide Asked;
      var init, a := actions[..|actions| - 1], actions[|actions| - 1];
      NoCycleUnasked(init, m);
      if Enabled(Play(init), a) { StepAsked(Play(init), a, m); }
    }
  }

  ghost predicate Asked(s: State, m: Mode) {
    Count(s.log, Started(m)) + (if m in s.full then 1 else 0) + (if s.loop == Starting(m) then 1 else 0)
      <= Count(s.log, Requested(m))
  }

  lemma StepAsked(s: State, a: Action, m: Mode)
    requires m != Regular && Asked(s, m) && Enabled(s, a)
    ensures Asked(Step(s, a), m)
  {
    hide Count;
    if a.Trigger? {
      CountAppend(s.log, Requested(a.mode), Started(m));
      CountAppend(s.log, Requested(a.mode), Requested(m));
    } else if a.Start? {
      CountAppend(s.log, Started(s.loop.mode), Started(m));
      CountAppend(s.log, Started(s.loop.mode), Requested(m));
    }
  }

  // ---- the loop comes round ----

  /** What the loop does next, if nobody interferes, until it selects again: start the cycle it is about to
      start, run it, and come back. */
  function ToSelect(l: Loop): seq<Action> {
    match l
    case Starting(_) => [Start] + [Finish]
    case Running(_) => [Finish]
    case Selecting => []
    case Stopped => []
  }

  function From(s: State, actions: seq<Action>): State {
    if actions == [] then s
    else
      var t := From(s, actions[..|actions| - 1]);
      if Enabled(t, actions[|actions| - 1]) then Step(t, actions[|actions| - 1]) else t
  }

  lemma FromOne(s: State, more: seq<Action>, a: Action)
    ensures From(s, more + [a]) == if Enabled(From(s, more), a) then Step(From(s, more), a) else From(s, more)
  {
    assert (more + [a])[..|more|] == more;
  }

  /** Main: unless it has been stopped the loop always comes back to select, having started just the cycle it was
      about to start, and no request is forgotten meanwhile. */
  lemma LoopComesRound(s: State)
    requires s.loop != Stopped
    ensures var s' := From(s, ToSelect(s.loop));
            && s'.loop == Selecting && s'.full == s.full
            && s'.log == s.log + if s.loop.Starting? then [Started(s.loop.mode)] else []
  {
    FromOne(s, [], Start);
    FromOne(s, [], Finish);
    FromOne(s, [Start], Finish);
    assert [] + [Start] == [Start] && [] + [Finish] == [Finish] && s.log + [] == s.log;
    assert From(s, []) == s;
  }

  lemma {:induction false} FromPlay(actions: seq<Action>, more: seq<Action>)
    ensures From(Play(actions), more) == Play(actions + more)
  {
    if more == [] {
      assert actions + more == actions;
    } else {
      assert (actions + more)[..|actions + more| - 1] == actions + more[..|more| - 1];
      FromPlay(actions, more[..|more| - 1]);
    }
  }

  /** And then, if it has not taken the request yet, until it has started its cycle. */
  function ToServe(l: Loop, m: Mode): seq<Action> {
    if l == Starting(m) then ToSelect(l) else ToSelect(l) + [Take(m)] + [Start]
  }

  /** Main: after any run that has not stopped the loop, a request that is not yet answered is answered by what
      the loop does on its own: it comes round, takes the request unless it had, and starts that very cycle. */
  lemma RequestIsServed(actions: seq<Action>, m: Mode)
    requires Play(actions).loop != Stopped && Pending(Play(actions).log, m)
    ensures var s, s' := Play(actions), From(Play(actions), ToServe(Play(actions).loop, m));
            && s.log <= s'.log && Started(m) in s'.log[|s.log|..] && !Pending(s'.log, m)
            && |ToServe(s.loop, m)| <= 4
  {
    hide Pending, Play, From, ToSelect;
    var s := Play(actions);
    assert |ToSelect(s.loop)| <= 2 by { RoundIsShort(s.loop); }
    NoRequestLost(actions, m);
    LoopComesRound(s);
    var t := From(s, ToSelect(s.loop));
    if s.loop == Starting(m) {
      LastAnswers(s.log, m);
    } else {
      FromOne(s, ToSelect(s.loop), Take(m));
      FromOne(s, ToSelect(s.loop) + [Take(m)], Start);
      LastAnswers(t.log, m);
      var u := From(s, ToServe(s.loop, m));
      assert u.log == t.log + [Started(m)];
      assert u.log[|s.log|..][|t.log| - |s.log|] == Started(m);
    }
  }

  lemma RoundIsShort(l: Loop)
    ensures |ToSelect(l)| <= 2
  {
  }

  lemma LastAnswers(log: seq<Event>, m: Mode)
    ensures !Pending(log + [Started(m)], m)
  {
    assert (log + [Started(m)])[|log|] == Started(m);
  }

  /** Main: the interval timer, too, makes the selecting loop start a regular cycle. */
  lemma TickStartsRegular(s: State)
    requires s.loop == Selecting
    ensures From(s, [Tick] + [Start]).log == s.log + [Started(Regular)]
    ensures From(s, [Tick] + [Start]).full == s.full
  {
    FromOne(s, [], Tick);
    FromOne(s, [Tick], Start);
    assert [] + [Tick] == [Tick];
  }

  /** And a stopped loop starts nothing any more. */
  lemma {:induction false} StoppedStaysStopped(s: State, more: seq<Action>, m: Mode)
    requires s.loop == Stopped
    ensures From(s, more).loop == Stopped && Count(From(s, more).log, Started(m)) == Count(s.log, Started(m))
  {
    if more != [] {
      var init, a := more[..|more| - 1], more[|more| - 1];
      StoppedStaysStopped(s, init, m);
      if a.Trigger? { CountAppend(From(s, init).log, Requested(a.mode), Started(m)); }
    }
  }

  lemma {:induction false} FromJoin(s: State, some: seq<Action>, more: seq<Action>)
    ensures From(s, some + more) == From(From(s, some), more)
  {
    if more == [] {
      assert some + more == some;
    } else {
      assert (some + more)[..|some + more| - 1] == some + more[..|more| - 1];
      FromJoin(s, some, more[..|more| - 1]);
    }
  }

  /** Main: when the context is done the selecting loop can stop, whatever is requested, and then no cycle
      starts again. */
  lemma StopIsFinal(s: State, more: seq<Action>, m: Mode)
    requires s.loop == Selecting
    ensures Enabled(s, Stop) && From(s, [Stop]).log == s.log && From(s, [Stop]).full == s.full
    ensures From(s, [Stop] + more).loop == Stopped
    ensures Count(From(s, [Stop] + more).log, Started(m)) == Count(s.log, Started(m))
  {
    FromOne(s, [], Stop);
    FromJoin(s, [Stop], more);
    StoppedStaysStopped(From(s, [Stop]), more, m);
  }

  /** No cycle has started yet. */
  predicate Quiet(log: seq<Event>) {
    forall i | 0 <= i < |log| :: log[i].Requested?
  }

  /** The first cycle that starts is a regular one. */
  ghost predicate OpensWith(log: seq<Event>, m: Mode) {
    forall i | 0 <= i < |log| && log[i].Started? && Quiet(log[..i]) :: log[i] == Started(m)
  }

  lemma OpensStep(s: State, a: Action)
    requires Enabled(s, a) && OpensWith(s.log, Regular) && (Quiet(s.log) ==> s.loop == Starting(Regular))
    ensures var s' := Step(s, a);
            OpensWith(s'.log, Regular) && (Quiet(s'.log) ==> s'.loop == Starting(Regular))
  {
    var s' := Step(s, a);
    forall i | 0 <= i < |s'.log| && s'.log[i].Started? && Quiet(s'.log[..i]) ensures s'.log[i] == Started(Regular) {
      if i < |s.log| {
        assert s'.log[..i] == s.log[..i] && s'.log[i] == s.log[i];
      } else {
        assert s'.log[..i] == s.log;
      }
    }
    assert a.Start? ==> s'.log[|s.log|].Started?;
    assert forall i | 0 <= i < |s.log| :: s'.log[i] == s.log[i];
  }

  /** Main: the first cycle is a regular one that nobody has to ask for, and nothing can keep it from starting. */
  lemma {:induction false} OpensRegular(actions: seq<Action>)
    ensures var s := Play(actions);
            && OpensWith(s.log, Regular)
            && (Quiet(s.log) ==> Enabled(s, Start) && Step(s, Start).log == s.log + [Started(Regular)])
    ensures Quiet(Play(actions).log) ==> Play(actions).loop == Starting(Regular)
  {
    if actions != [] {
      hide Step, Enabled, Quiet, OpensWith;
      var s, a := Play(actions[..|actions| - 1]), actions[|actions| - 1];
      OpensRegular(actions[..|actions| - 1]);
      if Enabled(s, a) { OpensStep(s, a); }
    }
    if Quiet(Play(actions).log) { StartOf(Play(actions)); }
  }

  lemma StartOf(s: State)
    requires s.loop.Starting?
    ensures Enabled(s, Start) && Step(s, Start).log == s.log + [Started(s.loop.mode)]
  {
  }

  /** A request is answered as soon as the loop next gets round to its channel. */
  lemma RequestCanBeServed(actions: seq<Action>, m: Mode)
    requires Pending(Play(actions).log, m) && Play(actions).loop == Selecting
    ensures var s := Play(actions);
            && Enabled(s, Take(m)) && Enabled(Step(s, Take(m)), Start)
            && !Pending(Step(Step(s, Take(m)), Start).log, m)
  {
    NoRequestLost(actions, m);
    var s := Play(actions);
    var log := s.log + [Started(m)];
    assert log[|s.log|] == Started(m);
  }
}
