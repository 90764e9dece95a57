/**
 The queue object itself: fields updated in place under the mutex.  Each method is what one
 thread does while it holds the mutex (or, for RunBatch, while it does not), and is proved
 against the step functions that the protocol is stated over.
 */
module CheckQueueObject {
  import opened Basics
  import opened CheckQueue
  import opened CheckQueueRuns

  /** Thread th after it has run n of the checks left in its batch. */
  function ExecuteMany(th: Thread, n: nat): Thread
    requires th.Running? && th.pos + n <= |th.batch|
    ensures ExecuteMany(th, n).Running? && ExecuteMany(th, n).batch == th.batch && ExecuteMany(th, n).pos == th.pos + n
  {
    if n == 0 then th else ExecuteOne(ExecuteMany(th, n - 1))
  }

  /** What is called on the workers' condition variable: nothing, notify_one, or notify_all. */
  datatype Notify = NotifyNone | NotifyOne | NotifyAll

  /** How many of the sleeping workers that wakes. */
  function Wakes(notify: Notify, sleepers: int): int {
    match notify
    case NotifyNone => 0
    case NotifyOne => Min(1, sleepers)
    case NotifyAll => sleepers
  }

  class Queue {
    var queue: seq<Check>
    var nIdle: int
    var nTotal: int
    var fAllOk: bool
    var nTodo: int
    const nBatchSize: nat

    ghost function View(): Shared
      reads this
    {
      Shared(queue, nIdle, nTotal, nTodo, fAllOk, nBatchSize)
    }

    constructor (nBatchSizeIn: nat)
      ensures View() == Shared([], 0, 0, 0, true, nBatchSizeIn) && Idle(View())
    {
      queue, nIdle, nTotal, fAllOk, nTodo, nBatchSize := [], 0, 0, true, 0, nBatchSizeIn;
    }

    /** Push the checks one by one; the result says which workers to notify. */
    method Add(vChecks: seq<Check>) returns (notify: Notify)
      modifies this
      ensures View() == old(View()).(queue := old(queue) + vChecks, nTodo := old(nTodo) + |vChecks|)
      ensures notify == if |vChecks| == 0 then NotifyNone else if |vChecks| == 1 then NotifyOne else NotifyAll
    {
      for i := 0 to |vChecks|
        invariant queue == old(queue) + vChecks[..i]
        invariant nIdle == old(nIdle) && nTotal == old(nTotal) && nTodo == old(nTodo) && fAllOk == old(fAllOk)
      {
        queue := queue + [vChecks[i]];
      }
      nTodo := nTodo + |vChecks|;
      if |vChecks| == 1 {
        notify := NotifyOne;
      } else if |vChecks| > 1 {
        notify := NotifyAll;
      } else {
        notify := NotifyNone;
      }
    }

    method IsIdle() returns (r: bool)
      ensures r == Idle(View())
    {
      r := nTotal == nIdle && nTodo == 0 && fAllOk;
    }

    /** The top of the critical section: account for the previous batch, or count this thread in. */
    method Begin(nNow: nat, fOk: bool, fMaster: bool) returns (notifyMaster: bool)
      modifies this
      ensures nNow > 0 ==> View() == CleanUp(old(View()), nNow, fOk)
      ensures nNow == 0 ==> View() == old(View()).(nTotal := old(nTotal) + 1)
      ensures notifyMaster <==> nNow > 0 && nTodo == 0 && !fMaster
    {
      notifyMaster := false;
      if nNow > 0 {
        fAllOk := fAllOk && fOk;
        nTodo := nTodo - nNow;
        if nTodo == 0 && !fMaster {
          notifyMaster := true;
        }
      } else {
        nTotal := nTotal + 1;
      }
    }

    /** Back from the condition variable, with the mutex taken again. */
    method Wake()
      modifies this
      ensures View() == old(View()).(nIdle := old(nIdle) - 1)
    {
      nIdle := nIdle - 1;
    }

    /** The rest of the critical section: return, go to sleep, or swap a batch off the back of the queue. */
    method Finish(fMaster: bool) returns (exit: Exit)
      modifies this
      ensures (View(), exit) == Tail(old(View()), fMaster)
    {
      hide BatchSize, Reversed;
      if queue == [] {
        if fMaster && nTodo == 0 {
          nTotal := nTotal - 1;
          var fRet := fAllOk;
          fAllOk := true;
          return Returned(fRet);
        }
        nIdle := nIdle + 1;
        return Slept;
      }
      var nNow := BatchSize(Shared(queue, nIdle, nTotal, nTodo, fAllOk, nBatchSize));
      var vChecks := Swap(nNow);
      exit := Took(vChecks, fAllOk);
    }

    /** Move the last nNow checks off the queue, the most recently pushed one first. */
    method Swap(nNow: nat) returns (vChecks: seq<Check>)
      requires nNow <= |queue|
      modifies this
      ensures View() == old(View()).(queue := old(queue)[..|old(queue)| - nNow])
      ensures vChecks == Reversed(old(queue)[|old(queue)| - nNow..])
    {
      vChecks := [];
      ghost var n := |queue|;
      for i := 0 to nNow
        invariant queue == old(queue)[..n - i]
        invariant vChecks == Reversed(old(queue)[n - i..])
        invariant nIdle == old(nIdle) && nTotal == old(nTotal) && nTodo == old(nTodo) && fAllOk == old(fAllOk)
      {
        ReversedSnoc(old(queue)[n - i..], old(queue)[n - i - 1]);
        assert old(queue)[n - i - 1..] == [old(queue)[n - i - 1]] + old(queue)[n - i..];
        vChecks := vChecks + [queue[|queue| - 1]];
        queue := queue[..|queue| - 1];
      }
    }

    /** Outside the mutex: run the batch, skipping the rest after the first failure. */
    method RunBatch(vChecks: seq<Check>, fOkIn: bool) returns (fOk: bool)
      ensures fOk <==> fOkIn && forall i :: 0 <= i < |vChecks| ==> vChecks[i].ok
      ensures ExecuteMany(Running(vChecks, 0, fOkIn), |vChecks|) == Running(vChecks, |vChecks|, fOk)
    {
      fOk := fOkIn;
      for i := 0 to |vChecks|
        invariant fOk <==> fOkIn && forall j :: 0 <= j < i ==> vChecks[j].ok
        invariant ExecuteMany(Running(vChecks, 0, fOkIn), i) == Running(vChecks, i, fOk)
      {
        if fOk {
          fOk := vChecks[i].ok;
        }
      }
    }
  }

  /** In the protocol an addition wakes as many sleeping workers as the notification that the object asks for. */
  lemma NotifyOnAdd(s: State, checks: seq<Check>, woken: nat, notify: Notify)
    requires |s.threads| > 0 && Enabled(s, Add(checks, woken))
    requires notify == if |checks| == 0 then NotifyNone else if |checks| == 1 then NotifyOne else NotifyAll
    ensures |Apply(s, Add(checks, woken)).threads| > 0
    ensures Sleepers(s.threads) - Sleepers(Apply(s, Add(checks, woken)).threads) == Wakes(notify, Sleepers(s.threads))
  {
    hide Sleepers, Apply;
    AddWakes(s, checks, woken);
    SleepersNonNegative(s.threads);
  }

  lemma SleepersNonNegative(ts: seq<Thread>)
    requires |ts| > 0
    ensures Sleepers(ts) >= 0
  {
    SumNonNegative(ts[1..], Asleep);
  }

  lemma TailOnShared(m: State, t: nat)
    requires t < |m.threads|
    ensures RunTail(m, t).sh == Tail(m.sh, t == 0).0
  {
    hide BatchSize, TakeBatch;
  }

  lemma EnterOnShared(s: State, step: Step)
    requires Enabled(s, step) && (step.BeginWait? || step.Destroy? || step.Start?)
    ensures if step.Destroy? && s.ctl.fDone then Apply(s, step).sh == s.sh
            else Apply(s, step).sh == Tail(s.sh.(nTotal := s.sh.nTotal + 1), !step.Start?).0
  {
    hide RunTail, Tail, SomeWorkerWaits;
    if step.Start? {
      TailOnShared(Enter(s, step.t), step.t);
    } else if step.BeginWait? {
      TailOnShared(Enter(s, 0), 0);
    } else if !s.ctl.fDone {
      TailOnShared(Enter(s.(ctl := Live(false, true)), 0), 0);
    }
  }

  lemma FinishOnShared(s: State, step: Step)
    requires Enabled(s, step) && step.Finish?
    ensures var th := s.threads[step.t];
            Apply(s, step).sh == Tail(CleanUp(s.sh, |th.batch|, th.fOk), step.t == 0).0
  {
    hide RunTail, Tail, SomeWorkerWaits;
    TailOnShared(Account(s, step.t), step.t);
  }

  lemma ResumeOnShared(s: State, step: Step)
    requires Enabled(s, step) && step.Resume?
    ensures Apply(s, step).sh == Tail(s.sh.(nIdle := s.sh.nIdle - 1), step.t == 0).0
  {
    hide RunTail, Tail, SomeWorkerWaits;
    TailOnShared(Awaken(s, step.t), step.t);
  }

  lemma PlainOnShared(s: State, step: Step)
    requires Enabled(s, step) && (step.Construct? || step.Execute? || step.Spurious? || step.Add?)
    ensures Apply(s, step).sh ==
            if step.Add? then s.sh.(queue := s.sh.queue + step.checks, nTodo := s.sh.nTodo + |step.checks|) else s.sh
  {
    hide RunTail, SomeWorkerWaits, NotifyWorkers;
  }

  /**
   What the object's methods do in a row is what the protocol does in a step: Begin or Wake,
   then Finish.
   */
  lemma StepOnShared(s: State, step: Step)
    requires Enabled(s, step)
    ensures step.BeginWait? || (step.Destroy? && !s.ctl.fDone) ==>
              Apply(s, step).sh == Tail(s.sh.(nTotal := s.sh.nTotal + 1), true).0
    ensures step.Start? ==> Apply(s, step).sh == Tail(s.sh.(nTotal := s.sh.nTotal + 1), false).0
    ensures step.Finish? ==>
              var th := s.threads[step.t];
              Apply(s, step).sh == Tail(CleanUp(s.sh, |th.batch|, th.fOk), step.t == 0).0
    ensures step.Resume? ==> Apply(s, step).sh == Tail(s.sh.(nIdle := s.sh.nIdle - 1), step.t == 0).0
    ensures step.Construct? || step.Execute? || step.Spurious? || (step.Destroy? && s.ctl.fDone) ==> Apply(s, step).sh == s.sh
    ensures step.Add? ==>
              Apply(s, step).sh == s.sh.(queue := s.sh.queue + step.checks, nTodo := s.sh.nTodo + |step.checks|)
  {
    hide Apply, Tail, CleanUp, SomeWorkerWaits;
    match step
    case BeginWait => EnterOnShared(s, step);
    case Destroy => EnterOnShared(s, step);
    case Start(_) => EnterOnShared(s, step);
    case Finish(_) => FinishOnShared(s, step);
    case Resume(_) => ResumeOnShared(s, step);
    case _ => PlainOnShared(s, step);
  }

  lemma {:induction false} ReversedSnoc<T>(s: seq<T>, x: T)
    ensures Reversed([x] + s) == Reversed(s) + [x]
  {
    if s != [] {
      var n := |s| - 1;
      assert ([x] + s)[..n + 1] == [x] + s[..n];
      ReversedSnoc(s[..n], x);
    }
  }
}
