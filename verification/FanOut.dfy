/** Liveness probes fanned out for one address: each probe may drop a token into a channel of
    capacity one before it leaves the wait group, a closer closes `done` once the group is empty, and
    the caller takes whichever of the token and `done` its select happens to pick. */
module FanOut {
  import opened Counting

  datatype Pc = Unborn | Probing | Sending | Exiting | Gone

  datatype Main = Launching | Selecting | Rechecking | Returned(alive: bool)

  datatype State = State(pcs: seq<Pc>, launched: nat, group: nat, token: bool, closed: bool, main: Main)

  datatype Action =
    | Launch
    | Listen
    | Answer(i: nat)
    | Send(i: nat)
    | Exit(i: nat)
    | Close
    | TakeToken
    | TakeDone
    | Recheck

  /** `outcomes[i]` is what probe `i` would report. */
  function Init(outcomes: seq<bool>): State {
    State(seq(|outcomes|, _ => Unborn), 0, 0, false, false, Launching)
  }

  predicate Enabled(s: State, a: Action) {
    match a
    case Launch => s.main.Launching? && s.launched < |s.pcs|
    case Listen => s.main.Launching? && s.launched == |s.pcs|
    case Answer(i) => i < |s.pcs| && s.pcs[i] == Probing
    case Send(i) => i < |s.pcs| && s.pcs[i] == Sending
    case Exit(i) => i < |s.pcs| && s.pcs[i] == Exiting && s.group > 0
    case Close => !s.main.Launching? && s.group == 0 && !s.closed
    case TakeToken => s.main.Selecting? && s.token
    case TakeDone => s.main.Selecting? && s.closed
    case Recheck => s.main.Rechecking?
  }

  function Step(s: State, a: Action, outcomes: seq<bool>): State
    requires Enabled(s, a) && |s.pcs| == |outcomes|
  {
    match a
    case Launch => s.(pcs := s.pcs[s.launched := Probing], launched := s.launched + 1, group := s.group + 1)
    case Listen => s.(main := Selecting)
    case Answer(i) => s.(pcs := s.pcs[i := if outcomes[i] then Sending else Exiting])
    case Send(i) => s.(pcs := s.pcs[i := Exiting], token := true)
    case Exit(i) => s.(pcs := s.pcs[i := Gone], group := s.group - 1)
    case Close => s.(closed := true)
    case TakeToken => s.(token := false, main := Returned(true))
    case TakeDone => s.(main := Rechecking)
    case Recheck => s.(token := false, main := Returned(s.token))
  }

  ghost predicate Positive(outcomes: seq<bool>) {
    exists i :: 0 <= i < |outcomes| && outcomes[i]
  }

  function InGroup(p: Pc): nat {
    if p.Probing? || p.Sending? || p.Exiting? then 1 else 0
  }

  function Members(pcs: seq<Pc>): seq<nat> {
    seq(|pcs|, i requires 0 <= i < |pcs| => InGroup(pcs[i]))
  }

  ghost predicate Inv(s: State, outcomes: seq<bool>) {
    && |s.pcs| == |outcomes|
    && s.launched <= |s.pcs|
    && (forall i | 0 <= i < |s.pcs| :: s.pcs[i] == Unborn <==> i >= s.launched)
    && (!s.main.Launching? ==> s.launched == |s.pcs|)
    && s.group == Sum(Members(s.pcs))
    && (forall i | 0 <= i < |s.pcs| && s.pcs[i] == Sending :: outcomes[i])
    && (s.token ==> Positive(outcomes))
    && (s.closed ==> forall i | 0 <= i < |s.pcs| :: s.pcs[i] == Gone)
    && (s.main.Rechecking? ==> s.closed)
    // a positive probe that is past its send has left its token, unless the caller has taken it
    && (!s.main.Returned? && !s.token ==>
          forall i | 0 <= i < |s.pcs| && outcomes[i] :: !(s.pcs[i].Exiting? || s.pcs[i].Gone?))
    && (s.main.Returned? ==> (s.main.alive <==> Positive(outcomes)))
  }

  lemma GroupUpdate(pcs: seq<Pc>, i: nat, p: Pc)
    requires i < |pcs|
    ensures Sum(Members(pcs[i := p])) == Sum(Members(pcs)) - InGroup(pcs[i]) + InGroup(p)
  {
    assert Members(pcs[i := p]) == Members(pcs)[i := InGroup(p)];
    SumUpdate(Members(pcs), i, InGroup(p));
  }

  lemma EmptyGroup(s: State, outcomes: seq<bool>)
    requires Inv(s, outcomes) && s.group == 0 && !s.main.Launching?
    ensures forall i | 0 <= i < |s.pcs| :: s.pcs[i] == Gone
  {
    SumZero(Members(s.pcs));
    forall i | 0 <= i < |s.pcs| ensures s.pcs[i] == Gone { assert Members(s.pcs)[i] == 0; }
  }

  lemma InitInv(outcomes: seq<bool>)
    ensures Inv(Init(outcomes), outcomes)
  {
    var m := Members(Init(outcomes).pcs);
    if Sum(m) > 0 { SumNonzero(m); }
  }

  lemma StepInv(s: State, a: Action, outcomes: seq<bool>)
    requires Inv(s, outcomes) && Enabled(s, a)
    ensures Inv(Step(s, a, outcomes), outcomes)
  {
    hide Sum, Members;
    var s' := Step(s, a, outcomes);
    match a {
      case Launch => GroupUpdate(s.pcs, s.launched, Probing);
      case Answer(i) => GroupUpdate(s.pcs, i, s'.pcs[i]);
      case Send(i) => GroupUpdate(s.pcs, i, Exiting);
      case Exit(i) => GroupUpdate(s.pcs, i, Gone);
      case Close => EmptyGroup(s, outcomes);
      case _ =>
    }
  }

  /** A schedule: every action enabled when it happens. */
  ghost predicate Schedule(run: seq<Action>, outcomes: seq<bool>)
  {
    run == [] ||
    (Schedule(run[..|run| - 1], outcomes) && Enabled(After(run[..|run| - 1], outcomes), run[|run| - 1]))
  }

  ghost function After(run: seq<Action>, outcomes: seq<bool>): (s: State)
    ensures |s.pcs| == |outcomes|
  {
    if run == [] then Init(outcomes)
    else
      var s := After(run[..|run| - 1], outcomes);
      if Enabled(s, run[|run| - 1]) then Step(s, run[|run| - 1], outcomes) else s
  }

  lemma {:induction false} AfterInv(run: seq<Action>, outcomes: seq<bool>)
    ensures Inv(After(run, outcomes), outcomes)
  {
    InitInv(outcomes);
    if run != [] {
      hide Inv;
      var init, a := run[..|run| - 1], run[|run| - 1];
      AfterInv(init, outcomes);
      if Enabled(After(init, outcomes), a) { StepInv(After(init, outcomes), a, outcomes); }
    }
  }

  /** Main: whatever the schedule, the answer is "some probe is positive", even for probes still
      running when it is given. */
  lemma AnswerIsExact(run: seq<Action>, outcomes: seq<bool>)
    requires After(run, outcomes).main.Returned?
    ensures After(run, outcomes).main.alive <==> Positive(outcomes)
  {
    AfterInv(run, outcomes);
  }

  // ---- no deadlock, no leak, bounded ----

  function PcRank(p: Pc): nat {
    match p case Unborn => 4 case Probing => 3 case Sending => 2 case Exiting => 1 case Gone => 0
  }

  function PcRanks(pcs: seq<Pc>): seq<nat> {
    seq(|pcs|, i requires 0 <= i < |pcs| => PcRank(pcs[i]))
  }

  function Rank(s: State): nat {
    Sum(PcRanks(s.pcs)) + (if s.closed then 0 else 1)
      + match s.main case Launching => 3 case Selecting => 2 case Rechecking => 1 case Returned(_) => 0
  }

  lemma RankUpdate(pcs: seq<Pc>, i: nat, p: Pc)
    requires i < |pcs|
    ensures Sum(PcRanks(pcs[i := p])) == Sum(PcRanks(pcs)) - PcRank(pcs[i]) + PcRank(p)
  {
    assert PcRanks(pcs[i := p]) == PcRanks(pcs)[i := PcRank(p)];
    SumUpdate(PcRanks(pcs), i, PcRank(p));
  }

  lemma StepDescends(s: State, a: Action, outcomes: seq<bool>)
    requires Inv(s, outcomes) && Enabled(s, a)
    ensures Rank(Step(s, a, outcomes)) < Rank(s)
  {
    var s' := Step(s, a, outcomes);
    match a {
      case Launch => RankUpdate(s.pcs, s.launched, Probing);
      case Answer(i) => RankUpdate(s.pcs, i, s'.pcs[i]);
      case Send(i) => RankUpdate(s.pcs, i, Exiting);
      case Exit(i) => RankUpdate(s.pcs, i, Gone);
      case _ =>
    }
  }

  /** Main: no schedule is longer than four actions a probe and four more. */
  lemma {:induction false} SchedulesEnd(run: seq<Action>, outcomes: seq<bool>)
    requires Schedule(run, outcomes)
    ensures |run| + Rank(After(run, outcomes)) <= 4 * |outcomes| + 4
  {
    if run == [] {
      StartRank(outcomes);
    } else {
      var init, a := run[..|run| - 1], run[|run| - 1];
      SchedulesEnd(init, outcomes);
      AfterInv(init, outcomes);
      hide Rank;
      StepDescends(After(init, outcomes), a, outcomes);
    }
  }

  lemma {:induction false} StartRank(outcomes: seq<bool>)
    ensures Sum(PcRanks(Init(outcomes).pcs)) == 4 * |outcomes|
  {
    if outcomes != [] {
      var n := |outcomes| - 1;
      StartRank(outcomes[..n]);
      assert PcRanks(Init(outcomes).pcs)[..n] == PcRanks(Init(outcomes[..n]).pcs);
    }
  }

  /** Main: a schedule that cannot be extended has returned, and every goroutine is gone. */
  lemma NothingLeaks(run: seq<Action>, outcomes: seq<bool>)
    requires forall a :: !Enabled(After(run, outcomes), a)
    ensures var s := After(run, outcomes);
            s.main == Returned(Positive(outcomes)) && s.closed && forall i | 0 <= i < |s.pcs| :: s.pcs[i] == Gone
  {
    var s := After(run, outcomes);
    AfterInv(run, outcomes);
    assert !Enabled(s, Launch) && !Enabled(s, Listen);
    forall i | 0 <= i < |s.pcs| ensures InGroup(s.pcs[i]) == 0 {
      assert !Enabled(s, Answer(i)) && !Enabled(s, Send(i)) && !Enabled(s, Exit(i));
      SumBounds(Members(s.pcs), i);
    }
    if s.group > 0 { SumNonzero(Members(s.pcs)); }
    assert !Enabled(s, Close) && !Enabled(s, TakeDone) && !Enabled(s, Recheck);
  }
}
