/** Which uses of controllers keep the queue idle between them, whatever the workers do. */
module CheckQueueCalls {
  import opened CheckQueue
  import opened CheckQueueRuns

  // ---------------------------------------------------------------- what the master calls

  /** The master's side of a schedule: controllers made, used and destroyed. */
  datatype Call = New | AddCall(checks: seq<Check>) | WaitCall | Delete

  function CallOf(step: Step): seq<Call> {
    match step
    case Construct => [New]
    case Add(checks, _) => [AddCall(checks)]
    case BeginWait => [WaitCall]
    case Destroy => [Delete]
    case _ => []
  }

  function Calls(steps: seq<Step>): seq<Call> {
    if steps == [] then [] else Calls(steps[..|steps| - 1]) + CallOf(steps[|steps| - 1])
  }

  /** After some calls: whether the current controller has waited, and the checks added that no Wait has covered. */
  datatype Ledger = Ledger(waited: bool, late: multiset<Check>)

  function AfterCall(p: Ledger, call: Call): Ledger {
    match call
    case New => p.(waited := false)
    case AddCall(checks) => p.(late := p.late + multiset(checks))
    case WaitCall => Ledger(true, multiset{})
    case Delete => Ledger(false, if p.waited then p.late else multiset{})
  }

  function After(calls: seq<Call>): Ledger {
    if calls == [] then Ledger(false, multiset{}) else AfterCall(After(calls[..|calls| - 1]), calls[|calls| - 1])
  }

  /** No controller that has waited is destroyed with checks added since its last Wait. */
  ghost predicate Settles(calls: seq<Call>) {
    calls == [] ||
    var before := calls[..|calls| - 1];
    Settles(before) && (calls[|calls| - 1].Delete? && After(before).waited ==> After(before).late == multiset{})
  }

  lemma {:induction false} SettlesPrefix(calls: seq<Call>, k: nat)
    requires Settles(calls) && k <= |calls|
    ensures Settles(calls[..k])
    decreases |calls|
  {
    if k == |calls| {
      assert calls[..k] == calls;
    } else {
      assert calls[..|calls| - 1][..k] == calls[..k];
      SettlesPrefix(calls[..|calls| - 1], k);
    }
  }

  lemma CallsStep(calls: seq<Call>, step: Step)
    ensures var p := After(calls);
            After(calls + CallOf(step)) == if CallOf(step) == [] then p else AfterCall(p, CallOf(step)[0])
    ensures Settles(calls + CallOf(step)) <==>
            Settles(calls) && (step.Destroy? && After(calls).waited ==> After(calls).late == multiset{})
  {
    if CallOf(step) == [] {
      assert calls + CallOf(step) == calls;
    } else {
      assert (calls + CallOf(step))[..|calls|] == calls;
    }
  }

  /** The calls determine the controller, and outside Wait the checks added since the last one. */
  ghost predicate Tracks(s: State, p: Ledger)
    requires |s.threads| > 0
  {
    if s.threads[0].Outside? then s.added == p.late && (s.ctl.Live? ==> s.ctl.fDone == p.waited)
    else p.late == multiset{} && (s.ctl.Live? && !s.ctl.dying ==> p.waited)
  }

  lemma TailTracks(m: State, t: nat)
    requires |m.threads| > 0 && t < |m.threads|
    ensures var r := RunTail(m, t);
            && |r.threads| == |m.threads|
            && (r.threads[0].Outside? <==> if t == 0 then Tail(m.sh, true).1.Returned? else m.threads[0].Outside?)
            && if Tail(m.sh, t == 0).1.Returned?
               then r.added == multiset{} && r.ctl == (if m.ctl.Live? && !m.ctl.dying then Live(true, false) else NoControl)
               else r.added == m.added && r.ctl == m.ctl
  {
    hide BatchSize, TakeBatch;
  }

  lemma WorkersDoNotReturn(sh: Shared)
    ensures !Tail(sh, false).1.Returned?
  {
    hide BatchSize, TakeBatch;
  }

  lemma BeforeTailControl(s: State, step: Step)
    requires Inv(s) && Enabled(s, step) && BeforeTail(s, step).Some?
    ensures var (m, t) := BeforeTail(s, step).value;
            && |m.threads| == |s.threads|
            && m.added == s.added && m.ctl == (if step.Destroy? then Live(false, true) else s.ctl)
            && (t != 0 ==> (m.threads[0].Outside? <==> s.threads[0].Outside?))
            && (CallOf(step) == [] && s.threads[0].Outside? ==> t != 0)
            && (CallOf(step) != [] ==> t == 0 && (step.BeginWait? || step.Destroy?) && s.ctl.Live? && !s.ctl.dying)
            && (CallOf(step) != [] ==> s.threads[0].Outside?) && (step.Destroy? ==> !s.ctl.fDone)
  {
    hide Inv0;
    assert |s.threads| > 0;
  }

  /** A critical section, in terms of the controller, the additions and whether the master is outside Wait. */
  lemma CriticalStep(s: State, step: Step)
    requires Inv(s) && Enabled(s, step) && BeforeTail(s, step).Some?
    ensures var a, t, ctl := Apply(s, step), BeforeTail(s, step).value.1, if step.Destroy? then Live(false, true) else s.ctl;
            && |a.threads| == |s.threads| > 0
            && (a.threads[0].Outside? <==> if t == 0 then WaitResult(s, step).Some? else s.threads[0].Outside?)
            && (WaitResult(s, step).Some? ==> t == 0)
            && (if WaitResult(s, step).Some?
                then a.added == multiset{} && a.ctl == (if ctl.Live? && !ctl.dying then Live(true, false) else NoControl)
                else a.added == s.added && a.ctl == ctl)
            && (CallOf(step) == [] && s.threads[0].Outside? ==> t != 0)
            && (CallOf(step) != [] ==> t == 0 && (step.BeginWait? || step.Destroy?) && s.ctl.Live? && !s.ctl.dying)
            && (CallOf(step) != [] ==> s.threads[0].Outside?) && (step.Destroy? ==> !s.ctl.fDone)
  {
    hide Inv0, Unlocked, RunTail, Apply, Enter, Account, Awaken, Tail, OnlyLocked;
    BeforeTailKeeps(s, step);
    BeforeTailControl(s, step);
    var (m, t) := BeforeTail(s, step).value;
    TailTracks(m, t);
    WorkersDoNotReturn(m.sh);
    Populated(s);
  }

  lemma Populated(s: State)
    requires Inv(s)
    ensures |s.threads| > 0
  {
  }

  /** The other steps. */
  lemma PlainStep(s: State, step: Step)
    requires Inv(s) && Enabled(s, step) && BeforeTail(s, step).None?
    ensures var a := Apply(s, step);
            && |a.threads| == |s.threads| > 0 && (a.threads[0].Outside? <==> s.threads[0].Outside?)
            && a.added == (if step.Add? then s.added + multiset(step.checks) else s.added)
            && a.ctl == (if step.Construct? then Live(false, false) else if step.Destroy? then NoControl else s.ctl)
            && (CallOf(step) != [] ==> s.threads[0].Outside?)
            && (step.Add? || step.Destroy? ==> s.ctl.Live? && !s.ctl.dying)
            && (step.Destroy? ==> s.ctl.fDone) && !step.BeginWait?
  {
    hide Inv0;
    Populated(s);
  }

  lemma TrackCritical(s: State, step: Step, p: Ledger)
    requires Inv(s) && |s.threads| > 0 && Enabled(s, step) && Tracks(s, p) && BeforeTail(s, step).Some?
    ensures |Apply(s, step).threads| > 0
    ensures Tracks(Apply(s, step), if CallOf(step) == [] then p else AfterCall(p, CallOf(step)[0]))
  {
    hide Inv, Enabled, Apply, BeforeTail, WaitResult;
    CriticalStep(s, step);
  }

  lemma TrackStep(s: State, step: Step, p: Ledger)
    requires Inv(s) && |s.threads| > 0 && Enabled(s, step) && Tracks(s, p)
    ensures |Apply(s, step).threads| > 0
    ensures Tracks(Apply(s, step), if CallOf(step) == [] then p else AfterCall(p, CallOf(step)[0]))
  {
    hide Inv, Enabled, Apply, BeforeTail, WaitResult;
    if BeforeTail(s, step).Some? {
      hide Tracks, AfterCall, CallOf;
      TrackCritical(s, step, p);
    } else {
      PlainStep(s, step);
    }
  }

  lemma {:induction false} RunTracks(workers: nat, nBatchSize: nat, steps: seq<Step>)
    requires Run(Initial(workers, nBatchSize), steps).Some?
    ensures var s := Run(Initial(workers, nBatchSize), steps).value;
            |s.threads| > 0 && Tracks(s, After(Calls(steps)))
    decreases |steps|
  {
    if steps != [] {
      var n := |steps| - 1;
      RunTracks(workers, nBatchSize, steps[..n]);
      Reachable(workers, nBatchSize, steps[..n]);
      TrackStep(Run(Initial(workers, nBatchSize), steps[..n]).value, steps[n], After(Calls(steps[..n])));
      CallsStep(Calls(steps[..n]), steps[n]);
    }
  }

  lemma SettledStep(s: State, step: Step, p: Ledger)
    requires Inv(s) && |s.threads| > 0 && Enabled(s, step) && Tracks(s, p)
    requires s.ctl.NoControl? ==> p.late == multiset{}
    requires step.Destroy? && p.waited ==> p.late == multiset{}
    ensures Apply(s, step).ctl.NoControl? ==>
              (if CallOf(step) == [] then p else AfterCall(p, CallOf(step)[0])).late == multiset{}
  {
    hide Inv, Enabled, Apply, BeforeTail, WaitResult;
    if BeforeTail(s, step).Some? {
      CriticalStep(s, step);
    } else {
      PlainStep(s, step);
    }
  }

  lemma {:induction false} SettledBetween(workers: nat, nBatchSize: nat, steps: seq<Step>)
    requires Run(Initial(workers, nBatchSize), steps).Some? && Settles(Calls(steps))
    ensures Run(Initial(workers, nBatchSize), steps).value.ctl.NoControl? ==> After(Calls(steps)).late == multiset{}
    decreases |steps|
  {
    if steps != [] {
      var n := |steps| - 1;
      var m, step := Run(Initial(workers, nBatchSize), steps[..n]).value, steps[n];
      hide Settles, After, Tracks, Inv, Enabled, Apply;
      CallsStep(Calls(steps[..n]), step);
      SettledBetween(workers, nBatchSize, steps[..n]);
      RunTracks(workers, nBatchSize, steps[..n]);
      Reachable(workers, nBatchSize, steps[..n]);
      SettledStep(m, step, After(Calls(steps[..n])));
    }
  }

  /** For any master that settles, and any schedule of its calls, the constructor's assertion does not fail. */
  lemma ConstructorAssertHolds(workers: nat, nBatchSize: nat, steps: seq<Step>)
    requires Run(Initial(workers, nBatchSize), steps).Some? && Settles(Calls(steps))
    requires Enabled(Run(Initial(workers, nBatchSize), steps).value, Construct)
    ensures Idle(Run(Initial(workers, nBatchSize), steps).value.sh)
  {
    SettledBetween(workers, nBatchSize, steps);
    RunTracks(workers, nBatchSize, steps);
    Reachable(workers, nBatchSize, steps);
    IdleWhenNothingAdded(Run(Initial(workers, nBatchSize), steps).value);
  }

  // ---------------------------------------------------------------- a schedule with idle workers

  /** The same controller and the same additions, none of them taken yet; inside Wait the very same state. */
  ghost predicate Resembles(s: State, l: State)
    requires |s.threads| > 0
  {
    if s.threads[0].Outside? then
      && |l.threads| > 0 && l.threads[0].Outside?
      && l.ctl == s.ctl && l.added == s.added && |l.sh.queue| == |l.added|
    else l == s
  }

  /** The same call in another state: which sleeping worker is notified is up to the system. */
  lemma LazyCall(s: State, l: State, step: Step) returns (step': Step)
    requires Inv(s) && |s.threads| > 0 && Resembles(s, l) && s.threads[0].Outside? && Enabled(s, step)
    requires CallOf(step) != [] && BeforeTail(s, step).None?
    ensures CallOf(step') == CallOf(step) && Enabled(l, step')
    ensures |Apply(s, step).threads| > 0 && Resembles(Apply(s, step), Apply(l, step'))
  {
    hide Inv0;
    step' := step;
    if step.Add? {
      assert |multiset(step.checks)| == |step.checks|;
      if SomeWorkerWaits(l.threads) {
        var w :| 1 <= w < |l.threads| && l.threads[w].Waiting?;
        step' := Add(step.checks, w);
      }
    }
  }

  lemma AfterReturn(s: State, step: Step)
    requires Inv(s) && Enabled(s, step) && WaitResult(s, step).Some?
    ensures Apply(s, step).added == multiset{} && Apply(s, step).sh.queue == []
  {
    StepHistory(s, step);
    BeforeTailKeeps(s, step);
    ReturnVerdict(s, step);
    var (m, t) := BeforeTail(s, step).value;
    NothingLeft(m);
  }

  /** Every run has one with the same calls in which no worker has taken anything since the last return of Wait. */
  lemma {:induction false} LazyRun(workers: nat, nBatchSize: nat, steps: seq<Step>) returns (lazy: seq<Step>)
    requires Run(Initial(workers, nBatchSize), steps).Some?
    ensures Run(Initial(workers, nBatchSize), lazy).Some? && Calls(lazy) == Calls(steps)
    ensures var s := Run(Initial(workers, nBatchSize), steps).value;
            |s.threads| > 0 && Resembles(s, Run(Initial(workers, nBatchSize), lazy).value)
    decreases |steps|
  {
    lazy := steps;
    Reachable(workers, nBatchSize, steps);
    if steps != [] {
      var n := |steps| - 1;
      var m, step := Run(Initial(workers, nBatchSize), steps[..n]).value, steps[n];
      hide Inv, Enabled, Apply, BeforeTail, WaitResult;
      Reachable(workers, nBatchSize, steps[..n]);
      Populated(m);
      if BeforeTail(m, step).Some? {
        CriticalStep(m, step);
      } else {
        PlainStep(m, step);
      }
      if WaitResult(m, step).Some? {
        AfterReturn(m, step);
      } else if m.threads[0].Outside? && Apply(m, step).threads[0].Outside? {
        lazy := LazyRun(workers, nBatchSize, steps[..n]);
        var l := Run(Initial(workers, nBatchSize), lazy).value;
        if CallOf(step) == [] {
          assert Calls(steps) == Calls(steps[..n]);
        } else {
          var more := LazyCall(m, l, step);
          assert (lazy + [more])[..|lazy|] == lazy;
          lazy := lazy + [more];
        }
      }
    }
  }

  /** A master that destroys a controller with checks added since its last Wait can meet a busy queue at its next constructor. */
  lemma UnsettledCanBreak(workers: nat, nBatchSize: nat, steps: seq<Step>) returns (lazy: seq<Step>)
    requires Run(Initial(workers, nBatchSize), steps).Some?
    requires Enabled(Run(Initial(workers, nBatchSize), steps).value, Destroy)
    requires Run(Initial(workers, nBatchSize), steps).value.ctl.fDone
    requires AddedSinceWait(Initial(workers, nBatchSize), steps) != multiset{}
    ensures Run(Initial(workers, nBatchSize), lazy).Some? && Calls(lazy) == Calls(steps) + [Delete]
    ensures Enabled(Run(Initial(workers, nBatchSize), lazy).value, Construct)
    ensures !Idle(Run(Initial(workers, nBatchSize), lazy).value.sh)
  {
    Reachable(workers, nBatchSize, steps);
    var before := LazyRun(workers, nBatchSize, steps);
    Reachable(workers, nBatchSize, before);
    var l := Run(Initial(workers, nBatchSize), before).value;
    TodoNonNegative(l);
    lazy := before + [Destroy];
    assert lazy[..|before|] == before;
  }

  lemma {:induction false} FindUnsettled(workers: nat, nBatchSize: nat, steps: seq<Step>) returns (lazy: seq<Step>)
    requires Run(Initial(workers, nBatchSize), steps).Some? && !Settles(Calls(steps))
    ensures Run(Initial(workers, nBatchSize), lazy).Some? && Calls(lazy) <= Calls(steps)
    ensures Enabled(Run(Initial(workers, nBatchSize), lazy).value, Construct)
    ensures !Idle(Run(Initial(workers, nBatchSize), lazy).value.sh)
    decreases |steps|
  {
    var n := |steps| - 1;
    CallsStep(Calls(steps[..n]), steps[n]);
    if Settles(Calls(steps[..n])) {
      RunTracks(workers, nBatchSize, steps[..n]);
      Reachable(workers, nBatchSize, steps[..n]);
      lazy := UnsettledCanBreak(workers, nBatchSize, steps[..n]);
    } else {
      lazy := FindUnsettled(workers, nBatchSize, steps[..n]);
    }
  }

  /**
   The constructor's assertion holds in every schedule of a master's calls, up to any point,
   exactly when no controller that has waited is destroyed with checks added since.
   */
  lemma ConstructorAssertExactly(workers: nat, nBatchSize: nat, steps: seq<Step>)
    requires Run(Initial(workers, nBatchSize), steps).Some?
    ensures Settles(Calls(steps)) <==>
            forall other :: && Run(Initial(workers, nBatchSize), other).Some? && Calls(other) <= Calls(steps)
                            && Enabled(Run(Initial(workers, nBatchSize), other).value, Construct)
                            ==> Idle(Run(Initial(workers, nBatchSize), other).value.sh)
  {
    if Settles(Calls(steps)) {
      forall other | && Run(Initial(workers, nBatchSize), other).Some? && Calls(other) <= Calls(steps)
                     && Enabled(Run(Initial(workers, nBatchSize), other).value, Construct)
        ensures Idle(Run(Initial(workers, nBatchSize), other).value.sh)
      {
        SettlesPrefix(Calls(steps), |Calls(other)|);
        assert Calls(steps)[..|Calls(other)|] == Calls(other);
        ConstructorAssertHolds(workers, nBatchSize, other);
      }
    } else {
      var lazy := FindUnsettled(workers, nBatchSize, steps);
    }
  }

  /** In particular, right after a late Add: the destructor does not wait, and the next constructor finds the queue busy. */
  lemma LateAddBreaksNextConstructor(s: State, add: Step)
    requires Inv(s) && s.ctl.Live? && s.ctl.fDone
    requires add.Add? && add.checks != [] && Enabled(s, add)
    ensures var m := Apply(s, add);
            && Enabled(m, Destroy)
            && var d := Apply(m, Destroy);
               Enabled(d, Construct) && !Idle(d.sh)
  {
    TodoNonNegative(s);
  }
}
