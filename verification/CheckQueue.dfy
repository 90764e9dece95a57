/**
 The parallel check queue: one master pushes batches of checks and then joins a pool of
 workers until everything it pushed is done.

 The protocol is a transition system.  A critical section (everything between taking and
 releasing the mutex) is one atomic step; running one check is a step of its own, outside
 the mutex.  Condition variables are modelled by the set of threads blocked on them:
 `Waiting` threads are un-notified, `Notified` threads have been woken (by a notification or
 spuriously) and still have to take the mutex again.
 */
module CheckQueue {
  import opened Basics

  /** A verification; `ok` is what its call operator returns. */
  datatype Check = Check(id: nat, ok: bool)

  /** The fields of the queue that the mutex protects. */
  datatype Shared = Shared(queue: seq<Check>, nIdle: int, nTotal: int, nTodo: int, fAllOk: bool, nBatchSize: nat)

  /** Where one thread is: outside the loop, holding the mutex, running a batch, or blocked. */
  datatype Thread =
    | Outside
    | Locked
    | Running(batch: seq<Check>, pos: nat, fOk: bool)
    | Waiting
    | Notified

  /** The master's controller object: absent, or alive; `dying` once its destructor runs. */
  datatype Control = NoControl | Live(fDone: bool, dying: bool)

  /**
   Thread 0 is the master.  `added` and `done` are history: the checks added since the last
   return of Wait, and those of them whose batch has been accounted for.
   */
  datatype State = State(sh: Shared, threads: seq<Thread>, ctl: Control, added: multiset<Check>, done: multiset<Check>)

  datatype Step =
    | Construct
    | Add(checks: seq<Check>, woken: nat)
    | BeginWait
    | Destroy
    | Start(t: nat)
    | Execute(t: nat)
    | Finish(t: nat)
    | Resume(t: nat)
    | Spurious(t: nat)

  // ---------------------------------------------------------------- shared state

  lemma {:induction false} ProductBound(d: int, k: nat)
    requires d > 0
    ensures d * k >= k
  {
    if d > 1 {
      ProductBound(d - 1, k);
      assert d * k == (d - 1) * k + k;
    }
  }

  lemma QuotientBound(q: nat, d: int)
    requires d > 0
    ensures 0 <= q / d <= q
  {
    var k := q / d;
    assert q == d * k + q % d;
    ProductBound(d, k);
  }

  /** How many checks a thread takes.  The divisor is positive wherever a thread gets here; see BatchSizeExact. */
  function BatchSize(sh: Shared): (n: nat)
    ensures sh.queue != [] ==> 1 <= n <= |sh.queue|
    ensures 1 <= n <= Max(1, sh.nBatchSize)
  {
    var d := sh.nTotal + sh.nIdle + 1;
    var share := if d <= 0 then 0 else (QuotientBound(|sh.queue|, d); |sh.queue| / d);
    Max(1, Min(sh.nBatchSize, share))
  }

  function Reversed<T>(s: seq<T>): (r: seq<T>)
    ensures |r| == |s|
  {
    if s == [] then [] else [s[|s| - 1]] + Reversed(s[..|s| - 1])
  }

  /** The last n queued checks, most recently pushed first: the queue is a stack. */
  function TakeBatch(sh: Shared, n: nat): (Shared, seq<Check>)
    requires n <= |sh.queue|
  {
    (sh.(queue := sh.queue[..|sh.queue| - n]), Reversed(sh.queue[|sh.queue| - n..]))
  }

  /** The clean-up at the top of the loop body, after a batch of nNow checks. */
  function CleanUp(sh: Shared, nNow: nat, fOk: bool): Shared {
    sh.(fAllOk := sh.fAllOk && fOk, nTodo := sh.nTodo - nNow)
  }

  predicate Idle(sh: Shared) {
    sh.nTotal == sh.nIdle && sh.nTodo == 0 && sh.fAllOk
  }

  /** How a critical section ends. */
  datatype Exit = Returned(result: bool) | Slept | Took(batch: seq<Check>, fOk: bool)

  /** From the test of queue.empty() to the release of the mutex. */
  function Tail(sh: Shared, master: bool): (Shared, Exit) {
    if sh.queue == [] then
      if master && sh.nTodo == 0 then
        (sh.(nTotal := sh.nTotal - 1, fAllOk := true), Returned(sh.fAllOk))
      else
        (sh.(nIdle := sh.nIdle + 1), Slept)
    else
      var (sh', batch) := TakeBatch(sh, BatchSize(sh));
      (sh', Took(batch, sh.fAllOk))
  }

  // ---------------------------------------------------------------- steps

  function NotifyMaster(ts: seq<Thread>): seq<Thread>
    requires |ts| > 0
  {
    if ts[0].Waiting? then ts[0 := Notified] else ts
  }

  function WakeOne(t: Thread): Thread { if t.Waiting? then Notified else t }

  /** notify_all on the workers' condition variable: thread 0 waits on the other one. */
  function NotifyWorkers(ts: seq<Thread>): seq<Thread> {
    seq(|ts|, i requires 0 <= i < |ts| => if i == 0 then ts[i] else WakeOne(ts[i]))
  }

  predicate SomeWorkerWaits(ts: seq<Thread>) {
    exists i :: 1 <= i < |ts| && ts[i].Waiting?
  }

  /** Thread t holds the mutex: finish its critical section. */
  function RunTail(s: State, t: nat): State
    requires t < |s.threads|
  {
    var (sh', exit) := Tail(s.sh, t == 0);
    match exit
    case Returned(_) =>
      s.(sh := sh', threads := s.threads[t := Outside], added := multiset{}, done := multiset{},
         ctl := if s.ctl.Live? && !s.ctl.dying then Live(true, false) else NoControl)
    case Slept => s.(sh := sh', threads := s.threads[t := Waiting])
    case Took(batch, fOk) => s.(sh := sh', threads := s.threads[t := Running(batch, 0, fOk)])
  }

  /** Thread t enters the loop and takes the mutex. */
  function Enter(s: State, t: nat): State
    requires t < |s.threads|
  {
    s.(sh := s.sh.(nTotal := s.sh.nTotal + 1), threads := s.threads[t := Locked])
  }

  /** Thread t takes the mutex with its batch complete and accounts for it. */
  function Account(s: State, t: nat): State
    requires t < |s.threads| && s.threads[t].Running?
  {
    var th := s.threads[t];
    var sh' := CleanUp(s.sh, |th.batch|, th.fOk);
    var ts := s.threads[t := Locked];
    s.(sh := sh',
       threads := if sh'.nTodo == 0 && t != 0 then NotifyMaster(ts) else ts,
       done := s.done + multiset(th.batch))
  }

  /** Thread t comes back from cond.wait holding the mutex. */
  function Awaken(s: State, t: nat): State
    requires t < |s.threads|
  {
    s.(sh := s.sh.(nIdle := s.sh.nIdle - 1), threads := s.threads[t := Locked])
  }

  function Push(s: State, checks: seq<Check>, woken: nat): State {
    s.(sh := s.sh.(queue := s.sh.queue + checks, nTodo := s.sh.nTodo + |checks|),
       added := s.added + multiset(checks),
       threads :=
         if |checks| == 1 then
           if woken < |s.threads| && SomeWorkerWaits(s.threads) then s.threads[woken := WakeOne(s.threads[woken])] else s.threads
         else if |checks| > 1 then NotifyWorkers(s.threads)
         else s.threads)
  }

  predicate IsWorker(s: State, t: nat) { 1 <= t < |s.threads| }

  predicate Enabled(s: State, step: Step) {
    |s.threads| > 0 &&
    match step
    case Construct => s.ctl.NoControl? && s.threads[0].Outside?
    case Add(checks, woken) =>
      && s.ctl.Live? && !s.ctl.dying && s.threads[0].Outside?
      && (|checks| == 1 && SomeWorkerWaits(s.threads) ==> IsWorker(s, woken) && s.threads[woken].Waiting?)
    case BeginWait => s.ctl.Live? && !s.ctl.dying && s.threads[0].Outside?
    case Destroy => s.ctl.Live? && !s.ctl.dying && s.threads[0].Outside?
    case Start(t) => IsWorker(s, t) && s.threads[t].Outside?
    case Execute(t) => t < |s.threads| && s.threads[t].Running? && s.threads[t].pos < |s.threads[t].batch|
    case Finish(t) => t < |s.threads| && s.threads[t].Running? && s.threads[t].pos == |s.threads[t].batch|
    case Resume(t) => t < |s.threads| && s.threads[t].Notified?
    case Spurious(t) => t < |s.threads| && s.threads[t].Waiting?
  }

  function ExecuteOne(th: Thread): Thread
    requires th.Running? && th.pos < |th.batch|
  {
    Running(th.batch, th.pos + 1, if th.fOk then th.batch[th.pos].ok else false)
  }

  function Apply(s: State, step: Step): State
    requires Enabled(s, step)
  {
    match step
    case Construct => s.(ctl := Live(false, false))
    case Add(checks, woken) => Push(s, checks, woken)
    case BeginWait => RunTail(Enter(s, 0), 0)
    case Destroy =>
      if s.ctl.fDone then s.(ctl := NoControl) else RunTail(Enter(s.(ctl := Live(false, true)), 0), 0)
    case Start(t) => RunTail(Enter(s, t), t)
    case Execute(t) => s.(threads := s.threads[t := ExecuteOne(s.threads[t])])
    case Finish(t) => RunTail(Account(s, t), t)
    case Resume(t) => RunTail(Awaken(s, t), t)
    case Spurious(t) => s.(threads := s.threads[t := Notified])
  }

  /** The critical section a step runs, up to the test of queue.empty(), if it has one. */
  function BeforeTail(s: State, step: Step): Option<(State, nat)>
    requires Enabled(s, step)
  {
    match step
    case BeginWait => Some((Enter(s, 0), 0))
    case Destroy => if s.ctl.fDone then None else Some((Enter(s.(ctl := Live(false, true)), 0), 0))
    case Start(t) => Some((Enter(s, t), t))
    case Finish(t) => Some((Account(s, t), t))
    case Resume(t) => Some((Awaken(s, t), t))
    case _ => None
  }

  /** The value Wait returns in this step, if it returns. */
  function WaitResult(s: State, step: Step): Option<bool>
    requires Enabled(s, step)
  {
    match BeforeTail(s, step)
    case None => None
    case Some((m, t)) =>
      var exit := Tail(m.sh, t == 0).1;
      if exit.Returned? then Some(exit.result) else None
  }

  // ---------------------------------------------------------------- sums over the threads

  function Sum(ts: seq<Thread>, f: Thread -> int): int {
    if ts == [] then 0 else Sum(ts[..|ts| - 1], f) + f(ts[|ts| - 1])
  }

  function Active(t: Thread): int { if t.Outside? then 0 else 1 }
  function Blocked(t: Thread): int { if t.Waiting? || t.Notified? then 1 else 0 }
  function Held(t: Thread): int { if t.Running? then |t.batch| else 0 }
  function Holding(t: Thread): int { if t.Running? then 1 else 0 }
  function Unexecuted(t: Thread): int { if t.Running? then |t.batch| - t.pos else 0 }
  function Unstarted(t: Thread): int { if t.Outside? then 1 else 0 }
  function Woken(t: Thread): int { if t.Notified? then 1 else 0 }

  function BatchOf(t: Thread): multiset<Check> { if t.Running? then multiset(t.batch) else multiset{} }

  function InFlight(ts: seq<Thread>): multiset<Check> {
    if ts == [] then multiset{} else InFlight(ts[..|ts| - 1]) + BatchOf(ts[|ts| - 1])
  }

  lemma {:induction false} SumUpdate(ts: seq<Thread>, f: Thread -> int, i: nat, x: Thread)
    requires i < |ts|
    ensures Sum(ts[i := x], f) == Sum(ts, f) - f(ts[i]) + f(x)
  {
    var n := |ts| - 1;
    if i == n {
      assert ts[i := x][..n] == ts[..n];
    } else {
      assert ts[i := x][..n] == ts[..n][i := x];
      SumUpdate(ts[..n], f, i, x);
    }
  }

  lemma MultisetShuffle(a: multiset<Check>, l: multiset<Check>, b: multiset<Check>, c: multiset<Check>, d: multiset<Check>)
    requires a + b == c + d
    ensures (a + l) + b == (c + l) + d
  {
    assert (a + l) + b == (a + b) + l;
    assert (c + l) + d == (c + d) + l;
  }

  lemma MultisetCancel(a: multiset<Check>, b: multiset<Check>, c: multiset<Check>, d: multiset<Check>)
    requires a + b == c + d
    ensures b == d ==> a == c
    ensures d == multiset{} ==> a + b == c
    ensures b == multiset{} ==> a == c + d
  {
    if b == d {
      assert (a + b) - b == a;
      assert (c + d) - d == c;
    }
  }

  lemma {:induction false} InFlightUpdate(ts: seq<Thread>, i: nat, x: Thread)
    requires i < |ts|
    ensures InFlight(ts[i := x]) + BatchOf(ts[i]) == InFlight(ts) + BatchOf(x)
  {
    hide BatchOf;
    var n := |ts| - 1;
    if i == n {
      assert ts[i := x][..n] == ts[..n];
    } else {
      var us := ts[i := x];
      assert us[..n] == ts[..n][i := x];
      InFlightUpdate(ts[..n], i, x);
      assert ts[..n][i] == ts[i] && us[n] == ts[n];
      MultisetShuffle(InFlight(us[..n]), BatchOf(ts[n]), BatchOf(ts[i]), InFlight(ts[..n]), BatchOf(x));
    }
  }

  lemma {:induction false} SumSame(ts: seq<Thread>, us: seq<Thread>, f: Thread -> int)
    requires |ts| == |us|
    requires forall i :: 0 <= i < |ts| ==> f(ts[i]) == f(us[i])
    ensures Sum(ts, f) == Sum(us, f)
  {
    if ts != [] {
      SumSame(ts[..|ts| - 1], us[..|us| - 1], f);
    }
  }

  lemma {:induction false} InFlightSame(ts: seq<Thread>, us: seq<Thread>)
    requires |ts| == |us|
    requires forall i :: 0 <= i < |ts| ==> BatchOf(ts[i]) == BatchOf(us[i])
    ensures InFlight(ts) == InFlight(us)
  {
    if ts != [] {
      InFlightSame(ts[..|ts| - 1], us[..|us| - 1]);
    }
  }

  lemma {:induction false} SumNonNegative(ts: seq<Thread>, f: Thread -> int)
    requires forall i :: 0 <= i < |ts| ==> f(ts[i]) >= 0
    ensures Sum(ts, f) >= 0
    ensures forall i :: 0 <= i < |ts| ==> f(ts[i]) <= Sum(ts, f)
  {
    if ts != [] {
      SumNonNegative(ts[..|ts| - 1], f);
    }
  }

  lemma {:induction false} SumBelow(ts: seq<Thread>, f: Thread -> int, g: Thread -> int)
    requires forall i :: 0 <= i < |ts| ==> f(ts[i]) <= g(ts[i])
    ensures Sum(ts, f) <= Sum(ts, g)
  {
    if ts != [] {
      SumBelow(ts[..|ts| - 1], f, g);
    }
  }

  lemma {:induction false} SumAdd(ts: seq<Thread>, f: Thread -> int, g: Thread -> int, h: Thread -> int)
    requires forall i :: 0 <= i < |ts| ==> f(ts[i]) == g(ts[i]) + h(ts[i])
    ensures Sum(ts, f) == Sum(ts, g) + Sum(ts, h)
  {
    if ts != [] {
      SumAdd(ts[..|ts| - 1], f, g, h);
    }
  }

  /** A positive sum has a positive member. */
  lemma {:induction false} SumPositive(ts: seq<Thread>, f: Thread -> int) returns (i: nat)
    requires Sum(ts, f) > 0
    ensures i < |ts| && f(ts[i]) > 0
  {
    if f(ts[|ts| - 1]) > 0 {
      i := |ts| - 1;
    } else {
      i := SumPositive(ts[..|ts| - 1], f);
    }
  }

  lemma {:induction false} InFlightEmpty(ts: seq<Thread>)
    requires forall i :: 0 <= i < |ts| ==> !ts[i].Running?
    ensures InFlight(ts) == multiset{}
  {
    if ts != [] {
      InFlightEmpty(ts[..|ts| - 1]);
    }
  }

  /** Replacing one thread changes every sum by that thread alone. */
  lemma UpdateAll(ts: seq<Thread>, i: nat, x: Thread)
    requires i < |ts|
    ensures Sum(ts[i := x], Active) == Sum(ts, Active) - Active(ts[i]) + Active(x)
    ensures Sum(ts[i := x], Blocked) == Sum(ts, Blocked) - Blocked(ts[i]) + Blocked(x)
    ensures Sum(ts[i := x], Held) == Sum(ts, Held) - Held(ts[i]) + Held(x)
    ensures BatchOf(ts[i]) == BatchOf(x) ==> InFlight(ts[i := x]) == InFlight(ts)
    ensures BatchOf(x) == multiset{} ==> InFlight(ts[i := x]) + BatchOf(ts[i]) == InFlight(ts)
    ensures BatchOf(ts[i]) == multiset{} ==> InFlight(ts[i := x]) == InFlight(ts) + BatchOf(x)
  {
    SumUpdate(ts, Active, i, x);
    SumUpdate(ts, Blocked, i, x);
    SumUpdate(ts, Held, i, x);
    InFlightUpdate(ts, i, x);
    MultisetCancel(InFlight(ts[i := x]), BatchOf(ts[i]), InFlight(ts), BatchOf(x));
  }

  lemma {:induction false} ReversedMultiset<T>(s: seq<T>)
    ensures multiset(Reversed(s)) == multiset(s)
  {
    if s != [] {
      ReversedMultiset(s[..|s| - 1]);
      assert s == s[..|s| - 1] + [s[|s| - 1]];
    }
  }

  /** The last element comes first. */
  lemma {:induction false} ReversedAt<T>(s: seq<T>, i: nat)
    requires i < |s|
    ensures Reversed(s)[i] == s[|s| - 1 - i]
  {
    if i > 0 {
      ReversedAt(s[..|s| - 1], i - 1);
    }
  }

  // ---------------------------------------------------------------- the invariant

  ghost predicate AllOk(m: multiset<Check>) {
    forall c :: c in m ==> c.ok
  }

  /** What is known of one thread's batch, given the checks added since the last Wait. */
  ghost predicate ThreadOk(t: Thread, added: multiset<Check>) {
    t.Running? ==>
      && 0 < |t.batch|
      && t.pos <= |t.batch|
      && (t.fOk ==> forall i :: 0 <= i < t.pos ==> t.batch[i].ok)
      && (!t.fOk ==> !AllOk(added))
  }

  /** The counters count what they are documented to count. */
  ghost predicate Counted(s: State) {
    && s.sh.nTotal == Sum(s.threads, Active)
    && s.sh.nIdle == Sum(s.threads, Blocked)
    && s.sh.nTodo == |s.sh.queue| + Sum(s.threads, Held)
  }

  /** Every check added since the last Wait is in exactly one place. */
  ghost predicate Conserved(s: State) {
    s.added == multiset(s.sh.queue) + InFlight(s.threads) + s.done
  }

  ghost predicate Verdict(s: State) {
    && (s.sh.fAllOk ==> AllOk(s.done))
    && (!s.sh.fAllOk ==> !AllOk(s.added))
  }

  /** A master that sleeps un-notified still has something to wait for. */
  ghost predicate MasterNotLost(s: State)
    requires |s.threads| > 0
  {
    s.threads[0].Waiting? ==> s.sh.queue == [] && s.sh.nTodo > 0
  }

  ghost predicate ControlOk(s: State)
    requires |s.threads| > 0
  {
    && (s.ctl.NoControl? ==> s.threads[0].Outside?)
    && (s.ctl.Live? && s.ctl.dying ==> !s.threads[0].Outside?)
  }

  /** Holds also inside a critical section, where one thread is Locked. */
  ghost predicate Inv0(s: State) {
    && |s.threads| > 0
    && Counted(s)
    && Conserved(s)
    && Verdict(s)
    && MasterNotLost(s)
    && ControlOk(s)
    && forall i :: 0 <= i < |s.threads| ==> ThreadOk(s.threads[i], s.added)
  }

  ghost predicate Unlocked(s: State) {
    forall i :: 0 <= i < |s.threads| ==> !s.threads[i].Locked?
  }

  ghost predicate OnlyLocked(s: State, t: nat) {
    && t < |s.threads|
    && s.threads[t].Locked?
    && forall i :: 0 <= i < |s.threads| && i != t ==> !s.threads[i].Locked?
  }

  /** The invariant of the states between steps, when the mutex is free. */
  ghost predicate Inv(s: State) {
    Inv0(s) && Unlocked(s)
  }

  lemma EnterKeeps(s: State, c: Control, t: nat)
    requires Inv(s) && t < |s.threads| && s.threads[t].Outside?
    requires if t == 0 then c.Live? else c == s.ctl
    ensures Inv0(Enter(s.(ctl := c), t)) && OnlyLocked(Enter(s.(ctl := c), t), t)
  {
    hide Sum, InFlight, AllOk;
    UpdateAll(s.threads, t, Locked);
  }

  lemma AwakenKeeps(s: State, t: nat)
    requires Inv(s) && t < |s.threads| && s.threads[t].Notified?
    ensures Inv0(Awaken(s, t)) && OnlyLocked(Awaken(s, t), t)
  {
    UpdateAll(s.threads, t, Locked);
  }

  lemma MoveToDone(q: multiset<Check>, f: multiset<Check>, b: multiset<Check>, g: multiset<Check>, d: multiset<Check>)
    requires g + b == f
    ensures q + f + d == q + g + (d + b)
  {
    assert q + (g + b) + d == q + g + (d + b);
  }

  lemma AccountSums(s: State, t: nat)
    requires |s.threads| > 0 && t < |s.threads| && s.threads[t].Running?
    requires Counted(s) && Conserved(s)
    ensures Counted(Account(s, t)) && Conserved(Account(s, t))
  {
    hide Sum, InFlight;
    var th := s.threads[t];
    var ts := s.threads[t := Locked];
    UpdateAll(s.threads, t, Locked);
    MoveToDone(multiset(s.sh.queue), InFlight(s.threads), multiset(th.batch), InFlight(ts), s.done);
    if ts[0].Waiting? {
      UpdateAll(ts, 0, Notified);
    }
  }

  lemma AccountVerdict(s: State, t: nat)
    requires |s.threads| > 0 && t < |s.threads| && s.threads[t].Running? && s.threads[t].pos == |s.threads[t].batch|
    requires Verdict(s) && ThreadOk(s.threads[t], s.added)
    ensures Verdict(Account(s, t))
  {
    var th := s.threads[t];
    assert th.fOk ==> AllOk(multiset(th.batch));
    assert AllOk(s.done) && AllOk(multiset(th.batch)) ==> AllOk(s.done + multiset(th.batch));
  }

  lemma AccountKeeps(s: State, t: nat)
    requires Inv(s) && t < |s.threads| && s.threads[t].Running? && s.threads[t].pos == |s.threads[t].batch|
    ensures Inv0(Account(s, t)) && OnlyLocked(Account(s, t), t)
  {
    AccountSums(s, t);
    AccountVerdict(s, t);
    var s' := Account(s, t);
    forall i | 0 <= i < |s'.threads|
      ensures ThreadOk(s'.threads[i], s'.added)
    {
      assert ThreadOk(s.threads[i], s.added);
    }
    TodoNonNegative(s');
  }

  lemma TodoNonNegative(s: State)
    requires Counted(s)
    ensures s.sh.nTodo >= |s.sh.queue|
  {
    SumNonNegative(s.threads, Held);
  }

  /** With nothing left to do, no thread holds a batch and everything added is done. */
  lemma NothingLeft(s: State)
    requires Inv0(s) && s.sh.nTodo == 0
    ensures s.sh.queue == []
    ensures forall i :: 0 <= i < |s.threads| ==> !s.threads[i].Running?
    ensures s.added == s.done
    ensures s.sh.fAllOk <==> AllOk(s.added)
  {
    SumNonNegative(s.threads, Held);
    forall i | 0 <= i < |s.threads|
      ensures !s.threads[i].Running?
    {
      assert Held(s.threads[i]) <= 0;
      assert ThreadOk(s.threads[i], s.added);
    }
    InFlightEmpty(s.threads);
  }

  lemma ReturnKeeps(s: State)
    requires Inv0(s) && OnlyLocked(s, 0) && s.sh.queue == [] && s.sh.nTodo == 0
    ensures Inv(RunTail(s, 0))
  {
    NothingLeft(s);
    UpdateAll(s.threads, 0, Outside);
    InFlightEmpty(s.threads[0 := Outside]);
  }

  lemma SleepKeeps(s: State, t: nat)
    requires Inv0(s) && OnlyLocked(s, t) && s.sh.queue == [] && (t == 0 ==> s.sh.nTodo != 0)
    ensures Inv(RunTail(s, t))
  {
    hide Sum, InFlight, AllOk;
    UpdateAll(s.threads, t, Waiting);
    TodoNonNegative(s);
    forall i | 0 <= i < |s.threads| && i != t ensures RunTail(s, t).threads[i] == s.threads[i] {
    }
  }

  lemma SplitQueue(q: seq<Check>, n: nat)
    requires n <= |q|
    ensures multiset(q[..|q| - n]) + multiset(Reversed(q[|q| - n..])) == multiset(q)
  {
    ReversedMultiset(q[|q| - n..]);
    assert q == q[..|q| - n] + q[|q| - n..];
  }

  lemma MoveToFlight(q: multiset<Check>, f: multiset<Check>, d: multiset<Check>, b: multiset<Check>, q': multiset<Check>, f': multiset<Check>)
    requires q' + b == q && f' == f + b
    ensures q' + f' + d == q + f + d
  {
    assert q' + (f + b) + d == (q' + b) + f + d;
  }

  /** Thread t moves the last n queued checks into its own batch. */
  function TakeN(s: State, t: nat, n: nat): State
    requires t < |s.threads| && n <= |s.sh.queue|
  {
    var (sh', batch) := TakeBatch(s.sh, n);
    s.(sh := sh', threads := s.threads[t := Running(batch, 0, s.sh.fAllOk)])
  }

  lemma TakeCounted(s: State, t: nat, n: nat)
    requires t < |s.threads| && s.threads[t].Locked? && n <= |s.sh.queue| && Counted(s)
    ensures Counted(TakeN(s, t, n))
  {
    hide Sum, InFlight, Reversed;
    UpdateAll(s.threads, t, TakeN(s, t, n).threads[t]);
  }

  lemma TakeConserved(s: State, t: nat, n: nat)
    requires t < |s.threads| && s.threads[t].Locked? && n <= |s.sh.queue| && Conserved(s)
    ensures Conserved(TakeN(s, t, n))
  {
    hide Sum, InFlight, Reversed;
    var s' := TakeN(s, t, n);
    var b := s'.threads[t];
    UpdateAll(s.threads, t, b);
    SplitQueue(s.sh.queue, n);
    MoveToFlight(multiset(s.sh.queue), InFlight(s.threads), s.done, BatchOf(b), multiset(s'.sh.queue), InFlight(s'.threads));
  }

  lemma TakeKeeps(s: State, t: nat)
    requires Inv0(s) && OnlyLocked(s, t) && s.sh.queue != []
    ensures Inv(RunTail(s, t))
  {
    var s' := RunTail(s, t);
    TakeCounted(s, t, BatchSize(s.sh));
    TakeConserved(s, t, BatchSize(s.sh));
    assert s' == TakeN(s, t, BatchSize(s.sh));
    forall i | 0 <= i < |s'.threads|
      ensures ThreadOk(s'.threads[i], s'.added)
    {
      assert ThreadOk(s.threads[i], s.added);
    }
  }

  lemma RunTailKeeps(s: State, t: nat)
    requires Inv0(s) && OnlyLocked(s, t)
    ensures Inv(RunTail(s, t))
  {
    if s.sh.queue != [] {
      TakeKeeps(s, t);
    } else if t == 0 && s.sh.nTodo == 0 {
      ReturnKeeps(s);
    } else {
      SleepKeeps(s, t);
    }
  }

  lemma AddToQueue(q: multiset<Check>, f: multiset<Check>, d: multiset<Check>, c: multiset<Check>)
    ensures (q + f + d) + c == (q + c) + f + d
  {
  }

  lemma PushSums(s: State, checks: seq<Check>, woken: nat)
    requires Counted(s) && Conserved(s)
    ensures Counted(Push(s, checks, woken)) && Conserved(Push(s, checks, woken))
  {
    hide Sum, InFlight, SomeWorkerWaits;
    var ts, ts' := s.threads, Push(s, checks, woken).threads;
    SumSame(ts, ts', Active);
    SumSame(ts, ts', Blocked);
    SumSame(ts, ts', Held);
    InFlightSame(ts, ts');
    AddToQueue(multiset(s.sh.queue), InFlight(ts), s.done, multiset(checks));
  }

  /** An addition wakes workers and touches no batch. */
  lemma PushThreads(s: State, checks: seq<Check>, woken: nat)
    requires |s.threads| > 0 && Enabled(s, Add(checks, woken))
    ensures var ts' := Push(s, checks, woken).threads;
            && |ts'| == |s.threads| && ts'[0] == s.threads[0]
            && forall i :: 0 <= i < |ts'| ==> ts'[i] == s.threads[i] || (s.threads[i].Waiting? && ts'[i] == Notified)
  {
  }

  lemma PushKeeps(s: State, checks: seq<Check>, woken: nat)
    requires Inv(s) && Enabled(s, Add(checks, woken))
    ensures Inv(Push(s, checks, woken))
  {
    hide Sum, InFlight, NotifyWorkers, SomeWorkerWaits, WakeOne;
    PushSums(s, checks, woken);
    PushThreads(s, checks, woken);
    var s' := Push(s, checks, woken);
    assert !AllOk(s.added) ==> !AllOk(s'.added);
    forall i | 0 <= i < |s'.threads|
      ensures ThreadOk(s'.threads[i], s'.added) && !s'.threads[i].Locked?
    {
      assert ThreadOk(s.threads[i], s.added);
    }
  }

  lemma ExecuteThreadOk(s: State, t: nat)
    requires t < |s.threads| && Conserved(s)
    requires s.threads[t].Running? && s.threads[t].pos < |s.threads[t].batch|
    requires ThreadOk(s.threads[t], s.added)
    ensures ThreadOk(ExecuteOne(s.threads[t]), s.added)
  {
    var th := s.threads[t];
    var c := th.batch[th.pos];
    if th.fOk && !c.ok {
      assert c in BatchOf(th);
      InFlightContains(s.threads, t);
      assert c in s.added;
    }
  }

  lemma ExecuteKeeps(s: State, t: nat)
    requires Inv(s) && Enabled(s, Execute(t))
    ensures Inv(Apply(s, Execute(t)))
  {
    hide Sum, InFlight, AllOk;
    UpdateAll(s.threads, t, ExecuteOne(s.threads[t]));
    ExecuteThreadOk(s, t);
  }

  lemma {:induction false} InFlightContains(ts: seq<Thread>, t: nat)
    requires t < |ts|
    ensures BatchOf(ts[t]) <= InFlight(ts)
  {
    if t < |ts| - 1 {
      InFlightContains(ts[..|ts| - 1], t);
    }
  }

  /** A step with a critical section keeps the invariant up to the test of queue.empty(). */
  lemma BeforeTailKeeps(s: State, step: Step)
    requires Inv(s) && Enabled(s, step) && BeforeTail(s, step).Some?
    ensures var (m, t) := BeforeTail(s, step).value;
            Inv0(m) && OnlyLocked(m, t) && Apply(s, step) == RunTail(m, t)
  {
    match step
    case BeginWait => EnterKeeps(s, s.ctl, 0);
    case Destroy => EnterKeeps(s, Live(false, true), 0);
    case Start(t) => EnterKeeps(s, s.ctl, t);
    case Finish(t) => AccountKeeps(s, t);
    case Resume(t) => AwakenKeeps(s, t);
  }

  lemma SpuriousKeeps(s: State, t: nat)
    requires Inv(s) && t < |s.threads| && s.threads[t].Waiting?
    ensures Inv(s.(threads := s.threads[t := Notified]))
  {
    hide Sum, InFlight, AllOk;
    UpdateAll(s.threads, t, Notified);
  }

  lemma ControlKeeps(s: State, c: Control)
    requires Inv(s) && s.threads[0].Outside? && (c.Live? ==> !c.dying)
    ensures Inv(s.(ctl := c))
  {
  }

  /** Every enabled step keeps the invariant. */
  lemma StepKeepsInv(s: State, step: Step)
    requires Inv(s) && Enabled(s, step)
    ensures Inv(Apply(s, step))
  {
    hide Inv, Inv0, OnlyLocked, RunTail, Enter, Account, Awaken, Push, ExecuteOne;
    if BeforeTail(s, step).Some? {
      BeforeTailKeeps(s, step);
      var (m, t) := BeforeTail(s, step).value;
      RunTailKeeps(m, t);
    } else {
      match step
      case Construct => ControlKeeps(s, Live(false, false));
      case Destroy => ControlKeeps(s, NoControl);
      case Add(checks, woken) => PushKeeps(s, checks, woken);
      case Execute(t) => ExecuteKeeps(s, t);
      case Spurious(t) => SpuriousKeeps(s, t);
    }
  }
}
