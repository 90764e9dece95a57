/** What holds over whole runs of the check queue, for any number of workers, any batch size and any schedule. */
module CheckQueueRuns {
  import opened Basics
  import opened CheckQueue

  /** A new queue, with every thread still outside the loop. */
  function Initial(workers: nat, nBatchSize: nat): State {
    State(Shared([], 0, 0, 0, true, nBatchSize), seq(workers + 1, _ => Outside), NoControl, multiset{}, multiset{})
  }

  /** The state a schedule leads to, if each of its steps is enabled in turn. */
  function Run(s: State, steps: seq<Step>): Option<State> {
    if steps == [] then Some(s) else
      match Run(s, steps[..|steps| - 1])
      case None => None
      case Some(m) =>
        var step := steps[|steps| - 1];
        if Enabled(m, step) then Some(Apply(m, step)) else None
  }

  /** The checks that a schedule added after the last return of Wait, read off the schedule itself. */
  function AddedSinceWait(s: State, steps: seq<Step>): multiset<Check>
    requires Run(s, steps).Some?
  {
    if steps == [] then multiset{} else
      var m := Run(s, steps[..|steps| - 1]).value;
      var step := steps[|steps| - 1];
      if step.Add? then AddedSinceWait(s, steps[..|steps| - 1]) + multiset(step.checks)
      else if WaitResult(m, step).Some? then multiset{}
      else AddedSinceWait(s, steps[..|steps| - 1])
  }

  // ---------------------------------------------------------------- reachable states

  lemma {:induction false} InitialSums(ts: seq<Thread>)
    requires forall i :: 0 <= i < |ts| ==> ts[i] == Outside
    ensures Sum(ts, Active) == 0 && Sum(ts, Blocked) == 0 && Sum(ts, Held) == 0
    ensures InFlight(ts) == multiset{}
  {
    if ts != [] {
      InitialSums(ts[..|ts| - 1]);
    }
  }

  lemma InitialInv(workers: nat, nBatchSize: nat)
    ensures Inv(Initial(workers, nBatchSize))
  {
    InitialSums(Initial(workers, nBatchSize).threads);
  }

  lemma StepHistory(s: State, step: Step)
    requires Enabled(s, step)
    ensures Apply(s, step).added ==
            if step.Add? then s.added + multiset(step.checks)
            else if WaitResult(s, step).Some? then multiset{} else s.added
  {
  }

  /** The invariant holds along every run from a state that has it. */
  lemma {:induction false} RunKeepsInv(s: State, steps: seq<Step>)
    requires Inv(s) && Run(s, steps).Some?
    ensures Inv(Run(s, steps).value)
  {
    if steps != [] {
      var n := |steps| - 1;
      RunKeepsInv(s, steps[..n]);
      StepKeepsInv(Run(s, steps[..n]).value, steps[n]);
    }
  }

  lemma {:induction false} RunHistory(s: State, steps: seq<Step>)
    requires s.added == multiset{} && Run(s, steps).Some?
    ensures Run(s, steps).value.added == AddedSinceWait(s, steps)
  {
    if steps != [] {
      var n := |steps| - 1;
      RunHistory(s, steps[..n]);
      StepHistory(Run(s, steps[..n]).value, steps[n]);
    }
  }

  lemma Reachable(workers: nat, nBatchSize: nat, steps: seq<Step>)
    requires Run(Initial(workers, nBatchSize), steps).Some?
    ensures var s := Run(Initial(workers, nBatchSize), steps).value;
            Inv(s) && s.added == AddedSinceWait(Initial(workers, nBatchSize), steps)
  {
    InitialInv(workers, nBatchSize);
    RunKeepsInv(Initial(workers, nBatchSize), steps);
    RunHistory(Initial(workers, nBatchSize), steps);
  }

  // ---------------------------------------------------------------- the verdict

  lemma ReturnVerdict(s: State, step: Step)
    requires Inv(s) && Enabled(s, step) && WaitResult(s, step).Some?
    ensures !step.Add?
    ensures WaitResult(s, step).value <==> AllOk(s.added)
  {
    BeforeTailKeeps(s, step);
    var (m, t) := BeforeTail(s, step).value;
    NothingLeft(m);
  }

  /** Wait returns true exactly when every check added since the previous Wait evaluates to true. */
  lemma WaitVerdict(workers: nat, nBatchSize: nat, steps: seq<Step>, last: Step)
    requires Run(Initial(workers, nBatchSize), steps).Some?
    requires Enabled(Run(Initial(workers, nBatchSize), steps).value, last)
    requires WaitResult(Run(Initial(workers, nBatchSize), steps).value, last).Some?
    ensures WaitResult(Run(Initial(workers, nBatchSize), steps).value, last).value
            <==> AllOk(AddedSinceWait(Initial(workers, nBatchSize), steps))
  {
    Reachable(workers, nBatchSize, steps);
    ReturnVerdict(Run(Initial(workers, nBatchSize), steps).value, last);
  }

  /** No check is lost or taken twice: each added check is queued, in one thread's batch, or accounted for. */
  lemma EveryCheckInOnePlace(workers: nat, nBatchSize: nat, steps: seq<Step>)
    requires Run(Initial(workers, nBatchSize), steps).Some?
    ensures var s := Run(Initial(workers, nBatchSize), steps).value;
            && AddedSinceWait(Initial(workers, nBatchSize), steps)
               == multiset(s.sh.queue) + InFlight(s.threads) + s.done
            && s.sh.nTodo == |s.sh.queue| + Sum(s.threads, Held)
  {
    Reachable(workers, nBatchSize, steps);
  }

  // ---------------------------------------------------------------- idleness

  /** The counters never go negative, inside a critical section either, so the unsigned nTodo never wraps. */
  lemma CountersNonNegative(s: State)
    requires Inv0(s)
    ensures s.sh.nTotal >= s.sh.nIdle >= 0 && s.sh.nTodo >= |s.sh.queue|
  {
    SumNonNegative(s.threads, Blocked);
    SumBelow(s.threads, Blocked, Active);
    TodoNonNegative(s);
  }

  /**
   Where a thread decides how many checks to take, the divisor is positive and the number is the
   documented one: its share of the queue, at least one and at most nBatchSize.
   */
  lemma BatchSizeExact(workers: nat, nBatchSize: nat, steps: seq<Step>, step: Step)
    requires Run(Initial(workers, nBatchSize), steps).Some?
    requires Enabled(Run(Initial(workers, nBatchSize), steps).value, step)
    requires BeforeTail(Run(Initial(workers, nBatchSize), steps).value, step).Some?
    ensures var sh := BeforeTail(Run(Initial(workers, nBatchSize), steps).value, step).value.0.sh;
            && sh.nTotal + sh.nIdle + 1 > 0
            && BatchSize(sh) == Max(1, Min(sh.nBatchSize, |sh.queue| / (sh.nTotal + sh.nIdle + 1)))
  {
    hide Inv0, Enter, Account, Awaken;
    Reachable(workers, nBatchSize, steps);
    var s := Run(Initial(workers, nBatchSize), steps).value;
    BeforeTailKeeps(s, step);
    CountersNonNegative(BeforeTail(s, step).value.0);
  }

  /** With the mutex free, nTotal - nIdle threads hold a batch. */
  lemma HoldersCounted(s: State)
    requires Inv(s)
    ensures s.sh.nTotal - s.sh.nIdle == Sum(s.threads, Holding)
  {
    SumAdd(s.threads, Active, Blocked, Holding);
  }

  lemma {:induction false} NoHolders(ts: seq<Thread>)
    requires forall i :: 0 <= i < |ts| ==> !ts[i].Running?
    ensures Sum(ts, Holding) == 0 && Sum(ts, Held) == 0
  {
    if ts != [] {
      NoHolders(ts[..|ts| - 1]);
    }
  }

  lemma IdleWhenNothingAdded(s: State)
    requires Inv(s) && s.added == multiset{}
    ensures Idle(s.sh)
  {
    hide Sum, InFlight;
    IdleWhenAllDone(s);
  }

  /** From the return of a Wait to the next Add, the queue is idle whatever the workers do. */
  lemma IdleUntilNextAdd(workers: nat, nBatchSize: nat, steps: seq<Step>)
    requires Run(Initial(workers, nBatchSize), steps).Some?
    requires AddedSinceWait(Initial(workers, nBatchSize), steps) == multiset{}
    ensures Idle(Run(Initial(workers, nBatchSize), steps).value.sh)
  {
    Reachable(workers, nBatchSize, steps);
    IdleWhenNothingAdded(Run(Initial(workers, nBatchSize), steps).value);
  }

  lemma NothingBesides(q: multiset<Check>, f: multiset<Check>, d: multiset<Check>)
    requires d == q + f + d
    ensures |q| == 0 && |f| == 0
  {
    assert |q + f + d| == |q| + |f| + |d|;
  }

  lemma IdleWhenAllDone(s: State)
    requires Inv(s) && s.added == s.done && AllOk(s.added)
    ensures Idle(s.sh)
  {
    hide Sum;
    NothingBesides(multiset(s.sh.queue), InFlight(s.threads), s.done);
    assert |multiset(s.sh.queue)| == |s.sh.queue|;
    forall i | 0 <= i < |s.threads|
      ensures !s.threads[i].Running?
    {
      InFlightContains(s.threads, i);
      assert ThreadOk(s.threads[i], s.added);
      assert BatchOf(s.threads[i]) == multiset{};
    }
    NoHolders(s.threads);
    HoldersCounted(s);
  }

  /** The queue is idle exactly when every check added since the last Wait has been accounted for and passed. */
  lemma IdleExactly(workers: nat, nBatchSize: nat, steps: seq<Step>)
    requires Run(Initial(workers, nBatchSize), steps).Some?
    ensures var s, added := Run(Initial(workers, nBatchSize), steps).value, AddedSinceWait(Initial(workers, nBatchSize), steps);
            Idle(s.sh) <==> s.done == added && AllOk(added)
  {
    Reachable(workers, nBatchSize, steps);
    var s := Run(Initial(workers, nBatchSize), steps).value;
    if Idle(s.sh) {
      NothingLeft(s);
    }
    if s.done == s.added && AllOk(s.added) {
      IdleWhenAllDone(s);
    }
  }

  // ---------------------------------------------------------------- no lost wakeup

  /** A blocked, un-notified master has an empty queue before it and a busy worker to wake it. */
  lemma BlockedMaster(s: State) returns (t: nat)
    requires Inv(s) && s.threads[0].Waiting?
    ensures s.sh.queue == [] && s.sh.nTodo > 0
    ensures IsWorker(s, t) && s.threads[t].Running?
  {
    t := SumPositive(s.threads, Held);
  }

  /** The step that brings nTodo to zero leaves no master asleep. */
  lemma LastBatchWakesMaster(s: State, t: nat)
    requires Inv(s) && Enabled(s, Finish(t)) && s.threads[0].Waiting?
    requires CleanUp(s.sh, |s.threads[t].batch|, s.threads[t].fOk).nTodo == 0
    ensures Apply(s, Finish(t)).threads[0].Notified?
  {
    AccountKeeps(s, t);
    assert Account(s, t).threads[0].Notified?;
  }

  // ---------------------------------------------------------------- wakeups

  function Asleep(t: Thread): int { if t.Waiting? then 1 else 0 }

  /** How many workers sleep without having been notified. */
  function Sleepers(ts: seq<Thread>): int
    requires |ts| > 0
  {
    Sum(ts[1..], Asleep)
  }

  lemma {:induction false} NoneAsleep(ts: seq<Thread>)
    requires forall i :: 0 <= i < |ts| ==> !ts[i].Waiting?
    ensures Sum(ts, Asleep) == 0
  {
    if ts != [] {
      NoneAsleep(ts[..|ts| - 1]);
    }
  }

  /** An addition changes no thread but workers it wakes: none for no check, one for one if any sleeps, all for more. */
  lemma AddWakes(s: State, checks: seq<Check>, woken: nat)
    requires |s.threads| > 0 && Enabled(s, Add(checks, woken))
    ensures var ts, ts' := s.threads, Apply(s, Add(checks, woken)).threads;
            && |ts'| == |ts| && ts'[0] == ts[0]
            && (forall i :: 0 <= i < |ts| ==> ts'[i] == ts[i] || (ts[i].Waiting? && ts'[i].Notified?))
            && (|checks| == 0 ==> ts' == ts)
            && (|checks| == 1 ==> Sleepers(ts') == Max(Sleepers(ts) - 1, 0))
            && (|checks| > 1 ==> Sleepers(ts') == 0)
  {
    var ts, ts' := s.threads, Apply(s, Add(checks, woken)).threads;
    if |checks| == 1 {
      if SomeWorkerWaits(ts) {
        assert ts'[1..] == ts[1..][woken - 1 := Notified];
        SumUpdate(ts[1..], Asleep, woken - 1, Notified);
        SumNonNegative(ts[1..], Asleep);
        assert ts[1..][woken - 1] == ts[woken];
      } else {
        assert forall i :: 0 <= i < |ts[1..]| ==> ts[1..][i] == ts[i + 1];
        NoneAsleep(ts[1..]);
      }
    } else if |checks| > 1 {
      assert forall i :: 0 <= i < |ts'[1..]| ==> ts'[1..][i] == ts'[i + 1];
      NoneAsleep(ts'[1..]);
    }
  }

  /** A worker that accounts for a batch wakes a sleeping master exactly when nothing is left to do. */
  lemma AccountWakes(s: State, t: nat)
    requires |s.threads| > 0 && t < |s.threads| && s.threads[t].Running? && t != 0 && s.threads[0].Waiting?
    ensures var th := s.threads[t];
            && (Account(s, t).threads[0].Notified? <==> s.sh.nTodo == |th.batch|)
            && (Account(s, t).threads[0].Waiting? <==> s.sh.nTodo != |th.batch|)
  {
  }

  /** A thread with a batch, or woken, can move. */
  lemma CanMove(s: State, t: nat) returns (next: Step)
    requires Inv(s) && t < |s.threads| && (s.threads[t].Running? || s.threads[t].Notified?)
    ensures Enabled(s, next) && (next.Execute? || next.Finish? || next.Resume?)
  {
    assert ThreadOk(s.threads[t], s.added);
    if s.threads[t].Notified? {
      next := Resume(t);
    } else if s.threads[t].pos < |s.threads[t].batch| {
      next := Execute(t);
    } else {
      next := Finish(t);
    }
  }

  /** No state inside Wait is a deadlock: a woken thread or one with a batch can move. */
  lemma NoDeadlock(workers: nat, nBatchSize: nat, steps: seq<Step>) returns (next: Step)
    requires Run(Initial(workers, nBatchSize), steps).Some?
    requires var s := Run(Initial(workers, nBatchSize), steps).value; |s.threads| > 0 && !s.threads[0].Outside?
    ensures Enabled(Run(Initial(workers, nBatchSize), steps).value, next)
    ensures next.Execute? || next.Finish? || next.Resume?
  {
    var s := Run(Initial(workers, nBatchSize), steps).value;
    Reachable(workers, nBatchSize, steps);
    var t := 0;
    if s.threads[0].Waiting? {
      t := BlockedMaster(s);
    }
    next := CanMove(s, t);
  }

  // ---------------------------------------------------------------- termination of Wait

  /** The work left: every step inside Wait but a spurious wakeup uses some of it up. */
  function Measure(s: State): int {
    2 * s.sh.nTodo + |s.sh.queue| + Sum(s.threads, Unexecuted) + Sum(s.threads, Unstarted) + Sum(s.threads, Woken)
  }

  lemma MeasureNonNegative(s: State)
    requires Inv(s)
    ensures Measure(s) >= 0
  {
    forall i | 0 <= i < |s.threads|
      ensures Unexecuted(s.threads[i]) >= 0
    {
      assert ThreadOk(s.threads[i], s.added);
    }
    SumNonNegative(s.threads, Unexecuted);
    SumNonNegative(s.threads, Unstarted);
    SumNonNegative(s.threads, Woken);
    TodoNonNegative(s);
  }

  lemma MeasureUpdate(ts: seq<Thread>, i: nat, x: Thread)
    requires i < |ts|
    ensures Sum(ts[i := x], Unexecuted) == Sum(ts, Unexecuted) - Unexecuted(ts[i]) + Unexecuted(x)
    ensures Sum(ts[i := x], Unstarted) == Sum(ts, Unstarted) - Unstarted(ts[i]) + Unstarted(x)
    ensures Sum(ts[i := x], Woken) == Sum(ts, Woken) - Woken(ts[i]) + Woken(x)
  {
    SumUpdate(ts, Unexecuted, i, x);
    SumUpdate(ts, Unstarted, i, x);
    SumUpdate(ts, Woken, i, x);
  }

  lemma TailMeasure(m: State, t: nat)
    requires t < |m.threads| && m.threads[t].Locked? && !Tail(m.sh, t == 0).1.Returned?
    ensures Measure(RunTail(m, t)) == Measure(m)
  {
    MeasureUpdate(m.threads, t, RunTail(m, t).threads[t]);
  }

  lemma AccountMeasure(s: State, t: nat)
    requires Inv(s) && Enabled(s, Finish(t))
    ensures Measure(Account(s, t)) < Measure(s)
  {
    var ts := s.threads[t := Locked];
    assert ThreadOk(s.threads[t], s.added);
    MeasureUpdate(s.threads, t, Locked);
    MeasureUpdate(ts, 0, Notified);
  }

  lemma BeforeTailMeasure(s: State, step: Step)
    requires Inv(s) && Enabled(s, step) && !s.threads[0].Outside? && BeforeTail(s, step).Some?
    ensures Measure(BeforeTail(s, step).value.0) < Measure(s)
  {
    match step
    case Start(t) => MeasureUpdate(s.threads, t, Locked);
    case Finish(t) => AccountMeasure(s, t);
    case Resume(t) => MeasureUpdate(s.threads, t, Locked);
  }

  lemma CriticalStepMeasure(s: State, step: Step)
    requires Inv(s) && Enabled(s, step) && !s.threads[0].Outside? && WaitResult(s, step).None?
    requires BeforeTail(s, step).Some?
    ensures Measure(Apply(s, step)) < Measure(s)
  {
    BeforeTailKeeps(s, step);
    BeforeTailMeasure(s, step);
    var (m, t) := BeforeTail(s, step).value;
    TailMeasure(m, t);
  }

  lemma StaysInside(s: State, step: Step)
    requires |s.threads| > 0 && Enabled(s, step) && !s.threads[0].Outside? && WaitResult(s, step).None?
    ensures !Apply(s, step).threads[0].Outside?
  {
    hide BatchSize, TakeBatch, NotifyWorkers, CleanUp;
  }

  lemma StepMeasure(s: State, step: Step)
    requires Inv(s) && Enabled(s, step) && !s.threads[0].Outside? && WaitResult(s, step).None?
    ensures step.Spurious? ==> Measure(Apply(s, step)) == Measure(s) + 1
    ensures !step.Spurious? ==> Measure(Apply(s, step)) < Measure(s)
  {
    if BeforeTail(s, step).Some? {
      CriticalStepMeasure(s, step);
    } else {
      match step
      case Execute(t) => MeasureUpdate(s.threads, t, ExecuteOne(s.threads[t]));
      case Spurious(t) => MeasureUpdate(s.threads, t, Notified);
    }
  }

  function CountSpurious(steps: seq<Step>): nat {
    if steps == [] then 0 else CountSpurious(steps[..|steps| - 1]) + (if steps[|steps| - 1].Spurious? then 1 else 0)
  }

  /** The schedule runs without Wait returning. */
  ghost predicate StaysInWait(s: State, steps: seq<Step>)
    requires Run(s, steps).Some?
  {
    steps == [] ||
    (StaysInWait(s, steps[..|steps| - 1])
     && WaitResult(Run(s, steps[..|steps| - 1]).value, steps[|steps| - 1]).None?)
  }

  lemma {:induction false} WaitProgress(s: State, steps: seq<Step>)
    requires Inv(s) && !s.threads[0].Outside? && Run(s, steps).Some? && StaysInWait(s, steps)
    ensures var m := Run(s, steps).value;
            && Inv(m)
            && !m.threads[0].Outside?
            && |steps| + Measure(m) <= Measure(s) + 2 * CountSpurious(steps)
  {
    if steps != [] {
      var n := |steps| - 1;
      WaitProgress(s, steps[..n]);
      StepKeepsInv(Run(s, steps[..n]).value, steps[n]);
      StepMeasure(Run(s, steps[..n]).value, steps[n]);
      StaysInside(Run(s, steps[..n]).value, steps[n]);
    }
  }

  /**
   Wait terminates: from any state inside it, a schedule that has not yet returned has at
   most Measure(s) steps, plus two for each spurious wakeup.
   */
  lemma WaitTerminates(s: State, steps: seq<Step>)
    requires Inv(s) && !s.threads[0].Outside? && Run(s, steps).Some? && StaysInWait(s, steps)
    ensures |steps| <= Measure(s) + 2 * CountSpurious(steps)
  {
    WaitProgress(s, steps);
    MeasureNonNegative(Run(s, steps).value);
  }
}
