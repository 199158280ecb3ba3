/** The bounded worker pool every scan loop uses: a slot is taken before a goroutine is spawned for an
    item; the worker probes, adds a positive item to the shared result under a mutex, frees its slot and
    leaves the wait group; the loop then waits for the group. */
module WorkerPool {
  import opened Counting
  import opened Listings

  datatype Pc = Unborn | Probing | Adding | Freeing | Leaving | Gone

  datatype Loop = Dealing | Acquiring | Waiting | Returned

  /** An addition takes and releases the result's mutex, so it is one action. */
  datatype State<T> = State(pcs: seq<Pc>, next: nat, slots: nat, group: nat, found: seq<T>, loop: Loop)

  datatype Job<!T> = Job(items: seq<T>, positive: T -> bool, capacity: nat)

  datatype Action = CountItem | Acquire | Probe(i: nat) | Add(i: nat) | Free(i: nat) | Leave(i: nat) | Finish | Return

  function Init<T>(job: Job<T>): State<T> {
    State(seq(|job.items|, _ => Unborn), 0, 0, 0, [], Dealing)
  }

  predicate Enabled<T>(s: State<T>, a: Action, job: Job<T>) {
    match a
    case CountItem => s.loop == Dealing && s.next < |s.pcs|
    case Acquire => s.loop == Acquiring && s.slots < job.capacity && s.next < |s.pcs|
    case Probe(i) => i < |s.pcs| && s.pcs[i] == Probing
    case Add(i) => i < |s.pcs| && s.pcs[i] == Adding
    case Free(i) => i < |s.pcs| && s.pcs[i] == Freeing && s.slots > 0
    case Leave(i) => i < |s.pcs| && s.pcs[i] == Leaving && s.group > 0
    case Finish => s.loop == Dealing && s.next == |s.pcs|
    case Return => s.loop == Waiting && s.group == 0
  }

  function Step<T>(s: State<T>, a: Action, job: Job<T>): State<T>
    requires Enabled(s, a, job) && |s.pcs| == |job.items|
  {
    match a
    case CountItem => s.(group := s.group + 1, loop := Acquiring)
    case Acquire => s.(slots := s.slots + 1, pcs := s.pcs[s.next := Probing], next := s.next + 1, loop := Dealing)
    case Probe(i) => s.(pcs := s.pcs[i := if job.positive(job.items[i]) then Adding else Freeing])
    case Add(i) => s.(pcs := s.pcs[i := Freeing], found := s.found + [job.items[i]])
    case Free(i) => s.(pcs := s.pcs[i := Leaving], slots := s.slots - 1)
    case Leave(i) => s.(pcs := s.pcs[i := Gone], group := s.group - 1)
    case Finish => s.(loop := Waiting)
    case Return => s.(loop := Returned)
  }

  datatype Measure = Slot | Group | Work

  /** What a worker contributes to the semaphore, to the wait group, and to the work left. */
  function Mark(m: Measure, p: Pc): nat {
    match m
    case Slot => if p.Probing? || p.Adding? || p.Freeing? then 1 else 0
    case Group => if p.Unborn? || p.Gone? then 0 else 1
    case Work =>
      match p
      case Unborn => 6
      case Probing => 4
      case Adding => 3
      case Freeing => 2
      case Leaving => 1
      case Gone => 0
  }

  function Marks(pcs: seq<Pc>, m: Measure): seq<nat> {
    seq(|pcs|, i requires 0 <= i < |pcs| => Mark(m, pcs[i]))
  }

  lemma MarksUpdate(pcs: seq<Pc>, m: Measure, i: nat, p: Pc)
    requires i < |pcs|
    ensures Sum(Marks(pcs[i := p], m)) == Sum(Marks(pcs, m)) - Mark(m, pcs[i]) + Mark(m, p)
  {
    assert Marks(pcs[i := p], m) == Marks(pcs, m)[i := Mark(m, p)];
    SumUpdate(Marks(pcs, m), i, Mark(m, p));
  }

  lemma MoveMarks(pcs: seq<Pc>, i: nat, p: Pc)
    requires i < |pcs|
    ensures forall m :: Sum(Marks(pcs[i := p], m)) == Sum(Marks(pcs, m)) - Mark(m, pcs[i]) + Mark(m, p)
  {
    forall m ensures Sum(Marks(pcs[i := p], m)) == Sum(Marks(pcs, m)) - Mark(m, pcs[i]) + Mark(m, p) {
      MarksUpdate(pcs, m, i, p);
    }
  }

  /** Item `i` has been probed, and its addition (if any) is done. */
  predicate Settled(p: Pc) {
    p.Freeing? || p.Leaving? || p.Gone?
  }

  ghost predicate Counted<T>(s: State<T>, job: Job<T>) {
    && |s.pcs| == |job.items| && s.next <= |s.pcs|
    && (forall i | 0 <= i < |s.pcs| :: s.pcs[i] == Unborn <==> i >= s.next)
    && s.slots == Sum(Marks(s.pcs, Slot)) && s.slots <= job.capacity
    && s.group == Sum(Marks(s.pcs, Group)) + (if s.loop == Acquiring then 1 else 0)
    && (s.loop == Acquiring ==> s.next < |s.pcs|)
    && (s.loop == Waiting ==> s.next == |s.pcs|)
    && (s.loop == Returned ==> forall i | 0 <= i < |s.pcs| :: s.pcs[i] == Gone)
  }

  ghost predicate Collected<T>(s: State<T>, job: Job<T>, x: T) {
    exists i :: 0 <= i < |s.pcs| && i < |job.items| && Settled(s.pcs[i]) && job.items[i] == x && job.positive(x)
  }

  ghost predicate FoundRight<T(!new)>(s: State<T>, job: Job<T>) {
    && Distinct(s.found)
    && (forall x :: x in s.found <==> Collected(s, job, x))
    && (forall i | 0 <= i < |s.pcs| && i < |job.items| && s.pcs[i] == Adding :: job.positive(job.items[i]))
  }

  lemma InitRight<T(!new)>(job: Job<T>)
    ensures Counted(Init(job), job) && FoundRight(Init(job), job)
  {
    var pcs := Init(job).pcs;
    if Sum(Marks(pcs, Slot)) > 0 { SumNonzero(Marks(pcs, Slot)); }
    if Sum(Marks(pcs, Group)) > 0 { SumNonzero(Marks(pcs, Group)); }
  }

  lemma NobodyLeft<T>(s: State<T>, job: Job<T>)
    requires Counted(s, job) && s.group == 0 && s.loop == Waiting
    ensures forall i | 0 <= i < |s.pcs| :: s.pcs[i] == Gone
  {
    SumZero(Marks(s.pcs, Group));
    forall i | 0 <= i < |s.pcs| ensures s.pcs[i] == Gone { assert Marks(s.pcs, Group)[i] == 0; }
  }

  lemma StepCounted<T>(s: State<T>, a: Action, job: Job<T>)
    requires Counted(s, job) && Enabled(s, a, job)
    ensures Counted(Step(s, a, job), job)
  {
    hide Sum, Marks;
    var s' := Step(s, a, job);
    match a {
      case Acquire => MoveMarks(s.pcs, s.next, Probing);
      case Probe(i) => MoveMarks(s.pcs, i, s'.pcs[i]);
      case Add(i) => MoveMarks(s.pcs, i, Freeing);
      case Free(i) => MoveMarks(s.pcs, i, Leaving);
      case Leave(i) => MoveMarks(s.pcs, i, Gone);
      case _ =>
    }
    if a.Return? { NobodyLeft(s, job); }
  }

  lemma StepFound<T(!new)>(s: State<T>, a: Action, job: Job<T>)
    requires Distinct(job.items) && |s.pcs| == |job.items| && FoundRight(s, job) && Enabled(s, a, job)
    requires s.next < |s.pcs| ==> s.pcs[s.next] == Unborn
    ensures FoundRight(Step(s, a, job), job)
  {
    var s' := Step(s, a, job);
    forall x ensures Collected(s', job, x) <==> Collected(s, job, x) || (a.Add? && x == job.items[a.i]) {
      if Collected(s, job, x) {
        var i :| 0 <= i < |s.pcs| && Settled(s.pcs[i]) && job.items[i] == x && job.positive(x);
        assert Settled(s'.pcs[i]);
      }
      if a.Add? && x == job.items[a.i] { assert Settled(s'.pcs[a.i]); }
      if Collected(s', job, x) {
        var i :| 0 <= i < |s'.pcs| && Settled(s'.pcs[i]) && job.items[i] == x && job.positive(x);
        assert Settled(s.pcs[i]) || (a.Add? && a.i == i);
      }
    }
    if a.Add? {
      assert !Collected(s, job, job.items[a.i]);
      assert forall x :: x in s'.found <==> x in s.found || x == job.items[a.i];
    }
  }

  ghost function After<T>(run: seq<Action>, job: Job<T>): (s: State<T>)
    ensures |s.pcs| == |job.items|
  {
    if run == [] then Init(job)
    else
      var s := After(run[..|run| - 1], job);
      if Enabled(s, run[|run| - 1], job) then Step(s, run[|run| - 1], job) else s
  }

  lemma {:induction false} AfterRight<T(!new)>(run: seq<Action>, job: Job<T>)
    requires Distinct(job.items)
    ensures Counted(After(run, job), job) && FoundRight(After(run, job), job)
  {
    InitRight(job);
    if run != [] {
      var init, a := run[..|run| - 1], run[|run| - 1];
      AfterRight(init, job);
      var s := After(init, job);
      hide Collected, FoundRight, Distinct, Step;
      if Enabled(s, a, job) {
        StepCounted(s, a, job);
        StepFound(s, a, job);
      }
    }
  }

  /** Main: when the pool returns, its result lists exactly the positive items, each once, whatever
      the schedule; and at no time do more workers than `capacity` hold a slot. */
  lemma PoolIsExact<T(!new)>(run: seq<Action>, job: Job<T>)
    requires Distinct(job.items)
    ensures Sum(Marks(After(run, job).pcs, Slot)) <= job.capacity
    ensures After(run, job).loop == Returned ==>
      Lists(After(run, job).found, set x | x in job.items && job.positive(x))
  {
    AfterRight(run, job);
    var s := After(run, job);
    if s.loop == Returned {
      forall x ensures x in s.found <==> x in job.items && job.positive(x) {
        if x in job.items && job.positive(x) {
          var i :| 0 <= i < |job.items| && job.items[i] == x;
          assert Settled(s.pcs[i]);
        }
      }
    }
  }

  // ---- no deadlock, bounded ----

  lemma MarkBounds(pcs: seq<Pc>, m: Measure, i: nat)
    requires i < |pcs|
    ensures Mark(m, pcs[i]) <= Sum(Marks(pcs, m))
  {
    SumBounds(Marks(pcs, m), i);
  }

  lemma NoMarks(pcs: seq<Pc>, m: Measure)
    requires forall i | 0 <= i < |pcs| :: Mark(m, pcs[i]) == 0
    ensures Sum(Marks(pcs, m)) == 0
  {
    if Sum(Marks(pcs, m)) > 0 { SumNonzero(Marks(pcs, m)); }
  }

  function StateRank<T>(s: State<T>): nat {
    Sum(Marks(s.pcs, Work)) + match s.loop case Dealing => 3 case Acquiring => 2 case Waiting => 1 case Returned => 0
  }

  lemma StepDescends<T>(s: State<T>, a: Action, job: Job<T>)
    requires Counted(s, job) && Enabled(s, a, job)
    ensures StateRank(Step(s, a, job)) < StateRank(s)
  {
    match a {
      case Acquire => MoveMarks(s.pcs, s.next, Probing);
      case Probe(i) => MoveMarks(s.pcs, i, Step(s, a, job).pcs[i]);
      case Add(i) => MoveMarks(s.pcs, i, Freeing);
      case Free(i) => MoveMarks(s.pcs, i, Leaving);
      case Leave(i) => MoveMarks(s.pcs, i, Gone);
      case _ =>
    }
  }

  /** Main: with at least one slot the pool cannot get stuck before it returns (with none, and an item to
      probe, it would); by `StepDescends` it does return. */
  lemma NeverStuck<T(!new)>(run: seq<Action>, job: Job<T>)
    requires Distinct(job.items) && job.capacity > 0
    requires forall a :: !Enabled(After(run, job), a, job)
    ensures After(run, job).loop == Returned
  {
    AfterRight(run, job);
    var s := After(run, job);
    hide *;
    StuckPools(s, job);
  }

  lemma StuckPools<T>(s: State<T>, job: Job<T>)
    requires Counted(s, job) && job.capacity > 0 && forall a :: !Enabled(s, a, job)
    ensures s.loop == Returned
  {
    hide Sum, Marks;
    forall i | 0 <= i < |s.pcs| ensures Mark(Group, s.pcs[i]) == 0 && Mark(Slot, s.pcs[i]) == 0 {
      assert !Enabled(s, Probe(i), job) && !Enabled(s, Add(i), job);
      assert !Enabled(s, Free(i), job) && !Enabled(s, Leave(i), job);
      MarkBounds(s.pcs, Slot, i);
      MarkBounds(s.pcs, Group, i);
    }
    NoMarks(s.pcs, Group);
    NoMarks(s.pcs, Slot);
    assert !Enabled(s, CountItem, job) && !Enabled(s, Acquire, job) && !Enabled(s, Finish, job) &&
           !Enabled(s, Return, job);
  }

  lemma {:induction false} ZeroCapacityBlocks<T>(run: seq<Action>, job: Job<T>)
    requires job.capacity == 0 && job.items != []
    ensures After(run, job).loop == Dealing || After(run, job).loop == Acquiring
    ensures After(run, job).next == 0
  {
    if run != [] { ZeroCapacityBlocks(run[..|run| - 1], job); }
  }
}
