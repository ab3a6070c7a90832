/** The workers of base/ThreadPool.cc around the monitor of BlockingQueue: `runInThread` and what `stop` waits for.

    Worker `i` is thread `i`; every other thread is a client that calls `run` or `stop`.  A step is one stretch under the
    mutex, one test of `running_`, or one task. */
module ThreadPool {
  import opened Bytes
  import Q = BlockingQueue

  /** Where a worker stands; a task is named by its place among those taken. */
  datatype Worker =
    | Testing                    // about to test running_
    | Taking                     // in take(), not yet returned
    | Holding(task: Option<nat>) // has what take() returned
    | Exited

  /** `ran` records the tasks that were executed, in the order in which they were begun. */
  datatype Pool<T> = Pool(q: Q.State<T>, workers: seq<Worker>, ran: seq<nat>)

  datatype Step<T> =
    | Others(step: Q.Step<T>)               // a client, a wakeup, or stop()
    | Test(tid: nat)
    | Take(tid: nat, woken: nat)
    | Run(tid: nat)

  function Init<T>(capacity: Option<nat>, threads: nat): Pool<T> {
    Pool(Q.Init(capacity), seq(threads, _ => Testing), [])
  }

  /** The step of `take` that the worker is at: its first, or the one after being woken. */
  function TakeStep<T>(p: Pool<T>, tid: nat, woken: nat): Q.Step<T> {
    if tid in p.q.signalledTakers then Q.TakeAgain(tid, woken) else Q.Take(tid, woken)
  }

  predicate Enabled<T>(p: Pool<T>, step: Step<T>) {
    match step
    case Others(s) =>
      Q.Enabled(p.q, s) && !s.Take? && !s.TakeAgain? && (s.Put? ==> s.tid >= |p.workers|)
    case Test(tid) => tid < |p.workers| && p.workers[tid].Testing?
    case Take(tid, woken) => tid < |p.workers| && p.workers[tid].Taking? && Q.Enabled(p.q, TakeStep(p, tid, woken))
    case Run(tid) => tid < |p.workers| && p.workers[tid].Holding?
  }

  function Apply<T>(p: Pool<T>, step: Step<T>): Pool<T>
    requires Enabled(p, step)
  {
    match step
    case Others(s) => p.(q := Q.Apply(p.q, s))
    case Test(tid) => p.(workers := p.workers[tid := if p.q.running then Taking else Exited])
    case Take(tid, woken) =>
      var q := Q.Apply(p.q, TakeStep(p, tid, woken));
      var got := if |q.takes| > |p.q.takes| then Some(|p.q.takes|) else None;
      p.(q := q, workers := if tid in q.waitingTakers then p.workers else p.workers[tid := Holding(got)])
    case Run(tid) =>
      var task := p.workers[tid].task;
      p.(workers := p.workers[tid := Testing], ran := if task.Some? then p.ran + [task.value] else p.ran)
  }

  /** A run: the states, and the step between each two. */
  ghost predicate IsRun<T(!new)>(trace: seq<Pool<T>>, steps: seq<Step<T>>, capacity: Option<nat>, threads: nat) {
    && |trace| == |steps| + 1 && trace[0] == Init(capacity, threads)
    && forall i :: 0 <= i < |steps| ==> Enabled(trace[i], steps[i]) && trace[i + 1] == Apply(trace[i], steps[i])
  }

  // ---------------------------------------------------------------- what every step keeps

  /** Only workers in `take` are takers, and no worker puts. */
  predicate RolesInv<T>(p: Pool<T>) {
    && (forall tid :: tid in Q.Takers(p.q) ==> tid < |p.workers| && p.workers[tid].Taking?)
    && (forall tid :: tid in Q.Putters(p.q) ==> tid >= |p.workers|)
  }

  predicate Holds<T>(p: Pool<T>, tid: nat, task: nat)
    requires tid < |p.workers|
  {
    p.workers[tid] == Holding(Some(task))
  }

  ghost predicate HeldBySomeone<T>(p: Pool<T>, task: nat) {
    exists tid :: 0 <= tid < |p.workers| && Holds(p, tid, task)
  }

  predicate Distinct(s: seq<nat>) {
    forall i, j :: 0 <= i < j < |s| ==> s[i] != s[j]
  }

  /** Every task taken was run once or is held by exactly one worker, and never both. */
  ghost predicate TasksInv<T>(p: Pool<T>) {
    && Distinct(p.ran)
    && (forall task :: task in p.ran ==> task < |p.q.takes| && !HeldBySomeone(p, task))
    && (forall task: nat :: task < |p.q.takes| ==> task in p.ran || HeldBySomeone(p, task))
    && (forall tid :: 0 <= tid < |p.workers| && HoldsTask(p.workers[tid]) ==> p.workers[tid].task.value < |p.q.takes|)
    && (forall a, b :: 0 <= a < b < |p.workers| && HoldsTask(p.workers[a]) ==> p.workers[a] != p.workers[b])
  }

  ghost predicate Inv<T>(p: Pool<T>) {
    Q.Inv(p.q) && RolesInv(p) && TasksInv(p)
  }

  lemma TakeBodySets<T>(q: Q.State<T>, tid: nat, woken: nat)
    requires tid !in Q.Takers(q) && (q.waitingPutters != {} ==> woken in q.waitingPutters)
    ensures var q' := Q.TakeBody(q, tid, woken);
            && (tid in q'.waitingTakers <==> q.queue == [] && q.running)
            && Q.Takers(q') == Q.Takers(q) + (if tid in q'.waitingTakers then {tid} else {})
            && Q.Putters(q') == Q.Putters(q) && q'.running == q.running
  {
  }

  lemma PutBodySets<T>(q: Q.State<T>, tid: nat, x: T, woken: nat)
    requires q.waitingTakers != {} ==> woken in q.waitingTakers
    ensures var q' := Q.PutBody(q, tid, x, woken);
            && Q.Takers(q') == Q.Takers(q) && q'.takes == q.takes && q'.running == q.running
            && Q.Putters(q') <= Q.Putters(q) + {tid}
  {
  }

  lemma {:induction false} BlockedIs<T>(q: Q.State<T>, tid: nat)
    ensures tid in Q.Blocked(q) <==> tid in Q.Takers(q) || tid in Q.Putters(q)
  {
  }

  /** What a step of `take` does to the monitor, as far as the pool is concerned. */
  lemma TakeEffect<T>(q: Q.State<T>, step: Q.Step<T>)
    requires Q.Inv(q) && Q.Enabled(q, step) && (step.Take? || step.TakeAgain?)
    ensures var q' := Q.Apply(q, step);
            && Q.Takers(q') == Q.Takers(q) - {step.tid} + (if step.tid in q'.waitingTakers then {step.tid} else {})
            && Q.Putters(q') == Q.Putters(q) && q'.running == q.running
            && (if |q.takes| < |q.puts| then |q'.takes| == |q.takes| + 1 && step.tid !in q'.waitingTakers
                else q'.takes == q.takes && (step.tid in q'.waitingTakers <==> q.running))
  {
    Q.TakeServes(q, step);
    if step.TakeAgain? {
      LeftTakers(q, step.tid);
    }
    BlockedIs(q, step.tid);
    hide Q.TakeBody, Q.Takers, Q.Putters, Q.Blocked, Q.ThreadsInv, Q.SignalInv, Q.QueueInv;
    if step.Take? {
      TakeBodySets(q, step.tid, step.woken);
    } else {
      TakeBodySets(Q.LeaveTakers(q, step.tid), step.tid, step.woken);
    }
  }

  lemma LeftTakers<T>(q: Q.State<T>, tid: nat)
    requires Q.ThreadsInv(q) && tid in q.signalledTakers
    ensures Q.Takers(Q.LeaveTakers(q, tid)) == Q.Takers(q) - {tid} && Q.Putters(Q.LeaveTakers(q, tid)) == Q.Putters(q)
  {
  }

  lemma LeftPutters<T>(q: Q.State<T>, tid: nat)
    requires Q.ThreadsInv(q) && tid in q.signalledPutters
    ensures Q.Putters(Q.LeavePutters(q, tid)) + {tid} == Q.Putters(q) && Q.Takers(Q.LeavePutters(q, tid)) == Q.Takers(q)
  {
  }

  lemma WakeSets<T>(q: Q.State<T>, step: Q.Step<T>)
    requires Q.Enabled(q, step) && (step.WakeTaker? || step.WakePutter? || step.Stop?)
    ensures var q' := Q.Apply(q, step);
            Q.Takers(q') == Q.Takers(q) && Q.Putters(q') == Q.Putters(q) && q'.takes == q.takes
  {
  }

  /** The other steps leave the takers and what was taken alone. */
  lemma OtherEffect<T>(q: Q.State<T>, step: Q.Step<T>)
    requires Q.Inv(q) && Q.Enabled(q, step) && !step.Take? && !step.TakeAgain?
    ensures var q' := Q.Apply(q, step);
            && Q.Takers(q') == Q.Takers(q) && q'.takes == q.takes
            && Q.Putters(q') <= Q.Putters(q) + (if step.Put? then {step.tid} else {})
            && (q'.running ==> q.running)
  {
    hide Q.PutBody, Q.Takers, Q.Putters, Q.Blocked, Q.ThreadsInv, Q.SignalInv, Q.QueueInv;
    match step
    case Put(tid, x, woken) => PutBodySets(q, tid, x, woken);
    case PutAgain(tid, woken) =>
      LeftPutters(q, tid);
      PutBodySets(Q.LeavePutters(q, tid), tid, q.inHand[tid], woken);
    case _ => WakeSets(q, step);
  }

  lemma StepKeepsRoles<T>(p: Pool<T>, step: Step<T>)
    requires Q.Inv(p.q) && RolesInv(p) && Enabled(p, step)
    ensures RolesInv(Apply(p, step))
  {
    hide Q.Inv, Q.Takers, Q.Putters, Q.Enabled, Q.Apply;
    match step
    case Others(s) => OtherEffect(p.q, s);
    case Take(tid, woken) => TakeEffect(p.q, TakeStep(p, tid, woken));
    case _ =>
  }

  lemma {:induction false} SameHolders<T>(p: Pool<T>, p': Pool<T>)
    requires TasksInv(p) && p'.ran == p.ran && p'.q.takes == p.q.takes && |p'.workers| == |p.workers|
    requires forall tid :: 0 <= tid < |p.workers| ==>
      p'.workers[tid] == p.workers[tid] || (!HoldsTask(p.workers[tid]) && !HoldsTask(p'.workers[tid]))
    ensures TasksInv(p')
  {
    forall task
      ensures HeldBySomeone(p', task) <==> HeldBySomeone(p, task)
    {
      if tid :| 0 <= tid < |p.workers| && Holds(p, tid, task) {
        assert Holds(p', tid, task);
      }
      if tid :| 0 <= tid < |p.workers| && Holds(p', tid, task) {
        assert Holds(p, tid, task);
      }
    }
  }

  predicate HoldsTask(w: Worker) {
    w.Holding? && w.task.Some?
  }

  /** A worker gets the next task. */
  lemma {:induction false} TakenTask<T>(p: Pool<T>, p': Pool<T>, tid: nat)
    requires TasksInv(p) && tid < |p.workers| && p.workers[tid].Taking? && p'.ran == p.ran
    requires |p'.q.takes| == |p.q.takes| + 1 && p'.workers == p.workers[tid := Holding(Some(|p.q.takes|))]
    ensures TasksInv(p')
  {
    var n := |p.q.takes|;
    assert Holds(p', tid, n);
    forall task
      ensures HeldBySomeone(p', task) <==> HeldBySomeone(p, task) || task == n
    {
      if a :| 0 <= a < |p.workers| && Holds(p, a, task) {
        assert Holds(p', a, task);
      }
      if a :| 0 <= a < |p.workers| && Holds(p', a, task) {
        assert a != tid ==> Holds(p, a, task);
      }
    }
  }

  /** A worker runs the task it holds. */
  lemma {:induction false} RanTask<T>(p: Pool<T>, p': Pool<T>, tid: nat, n: nat)
    requires TasksInv(p) && tid < |p.workers| && Holds(p, tid, n) && p'.q == p.q
    requires p'.workers == p.workers[tid := Testing] && p'.ran == p.ran + [n]
    ensures TasksInv(p')
  {
    assert HeldBySomeone(p, n);
    assert forall task :: task in p'.ran <==> task in p.ran || task == n;
    forall task
      ensures HeldBySomeone(p', task) <==> HeldBySomeone(p, task) && task != n
    {
      if a :| 0 <= a < |p.workers| && Holds(p, a, task) {
        assert a != tid ==> Holds(p', a, task);
        assert task == n ==> a == tid;
      }
      if a :| 0 <= a < |p.workers| && Holds(p', a, task) {
        assert Holds(p, a, task);
      }
    }
  }

  lemma StepKeepsTasks<T>(p: Pool<T>, step: Step<T>)
    requires Q.Inv(p.q) && TasksInv(p) && Enabled(p, step)
    ensures TasksInv(Apply(p, step))
  {
    hide Q.Inv, Q.Takers, Q.Putters, Q.Enabled, Q.Apply, TasksInv;
    var p' := Apply(p, step);
    match step
    case Others(s) =>
      OtherEffect(p.q, s);
      SameHolders(p, p');
    case Test(tid) => SameHolders(p, p');
    case Take(tid, woken) =>
      TakeEffect(p.q, TakeStep(p, tid, woken));
      if |p'.q.takes| > |p.q.takes| {
        TakenTask(p, p', tid);
      } else {
        SameHolders(p, p');
      }
    case Run(tid) =>
      if p.workers[tid].task.Some? {
        RanTask(p, p', tid, p.workers[tid].task.value);
      } else {
        SameHolders(p, p');
      }
  }

  lemma StepKeepsInv<T>(p: Pool<T>, step: Step<T>)
    requires Inv(p) && Enabled(p, step)
    ensures Inv(Apply(p, step)) && |Apply(p, step).workers| == |p.workers|
  {
    hide Q.Inv, Q.Takers, Q.Putters, Q.Enabled, Q.Apply, TasksInv, RolesInv;
    StepKeepsRoles(p, step);
    StepKeepsTasks(p, step);
    match step
    case Others(s) => Q.StepKeepsInv(p.q, s);
    case Take(tid, woken) => Q.StepKeepsInv(p.q, TakeStep(p, tid, woken));
    case _ =>
  }

  lemma {:induction false} InitInv<T>(capacity: Option<nat>, threads: nat)
    ensures Inv(Init<T>(capacity, threads))
  {
    var p := Init<T>(capacity, threads);
    assert forall task :: !HeldBySomeone(p, task);
  }

  lemma {:induction false} RunKeepsInv<T(!new)>(trace: seq<Pool<T>>, steps: seq<Step<T>>, capacity: Option<nat>, threads: nat, i: nat)
    requires IsRun(trace, steps, capacity, threads) && i < |trace|
    ensures Inv(trace[i]) && |trace[i].workers| == threads
  {
    hide Inv, Enabled, Apply;
    if i == 0 {
      InitInv<T>(capacity, threads);
    } else {
      RunKeepsInv(trace, steps, capacity, threads, i - 1);
      assert trace[i - 1 + 1] == Apply(trace[i - 1], steps[i - 1]);
      StepKeepsInv(trace[i - 1], steps[i - 1]);
    }
  }

  // ---------------------------------------------------------------- main results

  /** In every run every task is taken at most once and in the order of the puts, and every task taken has run exactly
      once or is in the hands of exactly one worker, which will run it; so all taken tasks have run once no worker
      holds one, in particular when all have exited. */
  lemma TasksRunOnce<T(!new)>(trace: seq<Pool<T>>, steps: seq<Step<T>>, capacity: Option<nat>, threads: nat, i: nat)
    requires IsRun(trace, steps, capacity, threads) && i < |trace|
    ensures var p := trace[i];
            && p.q.takes <= p.q.puts && Distinct(p.ran)
            && (forall task: nat :: task < |p.q.takes| <==> task in p.ran || HeldBySomeone(p, task))
            && (forall task :: task in p.ran ==> !HeldBySomeone(p, task))
            && ((forall tid :: 0 <= tid < |p.workers| ==> p.workers[tid].Exited?) ==>
                forall task: nat :: task < |p.q.takes| <==> task in p.ran)
  {
    RunKeepsInv(trace, steps, capacity, threads, i);
    var p := trace[i];
    if forall tid :: 0 <= tid < |p.workers| ==> p.workers[tid].Exited? {
      assert forall task :: !HeldBySomeone(p, task);
    }
  }

  // ---------------------------------------------------------------- a running pool works

  predicate Stopped<T>(steps: seq<Step<T>>) {
    exists k :: 0 <= k < |steps| && steps[k].Others? && steps[k].step.Stop?
  }

  /** The pool runs exactly until `stop()` is called, and while it runs no worker has exited. */
  lemma {:induction false} RunsUntilStopped<T(!new)>(
    trace: seq<Pool<T>>, steps: seq<Step<T>>, capacity: Option<nat>, threads: nat, i: nat)
    requires IsRun(trace, steps, capacity, threads) && i < |trace|
    ensures trace[i].q.running <==> !Stopped(steps[..i])
    ensures trace[i].q.running ==> forall tid :: 0 <= tid < |trace[i].workers| ==> !trace[i].workers[tid].Exited?
  {
    if i > 0 {
      RunsUntilStopped(trace, steps, capacity, threads, i - 1);
      assert trace[i - 1 + 1] == Apply(trace[i - 1], steps[i - 1]);
      RunningStep(trace[i - 1], steps[i - 1]);
      assert steps[..i] == steps[..i - 1] + [steps[i - 1]];
      hide Enabled, Apply;
      StoppedPush(steps[..i - 1], steps[i - 1]);
    }
  }

  lemma {:induction false} StoppedPush<T>(steps: seq<Step<T>>, step: Step<T>)
    ensures Stopped(steps + [step]) <==> Stopped(steps) || (step.Others? && step.step.Stop?)
  {
    var all := steps + [step];
    if k :| 0 <= k < |steps| && steps[k].Others? && steps[k].step.Stop? {
      assert all[k] == steps[k];
    }
    assert all[|steps|] == step;
  }

  lemma RunningStep<T>(p: Pool<T>, step: Step<T>)
    requires Enabled(p, step)
    ensures var p' := Apply(p, step);
            && (p'.q.running <==> p.q.running && !(step.Others? && step.step.Stop?))
            && |p'.workers| == |p.workers|
            && (p.q.running ==> forall tid :: 0 <= tid < |p.workers| && p'.workers[tid].Exited? ==> p.workers[tid].Exited?)
  {
  }

  /** Three undisturbed steps of a worker that is about to test `running_`. */
  function Turn<T>(p: Pool<T>, tid: nat, woken: nat): Pool<T>
    requires Inv(p) && p.q.running && tid < |p.workers| && p.workers[tid].Testing? && |p.q.takes| < |p.q.puts|
    requires p.q.waitingPutters != {} ==> woken in p.q.waitingPutters
  {
    FreeToTake(p, tid, woken);
    TakeStepOf(p, tid, woken);
    Apply(Apply(Apply(p, Test(tid)), Take(tid, woken)), Run(tid))
  }

  /** The worker after its test, in `take`, and what it comes back with. */
  lemma TakeStepOf<T>(p: Pool<T>, tid: nat, woken: nat)
    requires Q.Inv(p.q) && p.q.running && tid < |p.workers| && p.workers[tid].Testing? && |p.q.takes| < |p.q.puts|
    requires tid !in p.q.signalledTakers && Q.Enabled(p.q, Q.Take(tid, woken))
    ensures var p1 := Apply(p, Test(tid));
            Enabled(p1, Take(tid, woken))
            && var p2 := Apply(p1, Take(tid, woken));
               p2.workers == p.workers[tid := Taking][tid := Holding(Some(|p.q.takes|))] && p2.ran == p.ran
               && |p2.q.takes| == |p.q.takes| + 1 && p2.q.takes <= p.q.puts
  {
    hide Q.Apply, Q.Enabled, Q.Inv;
    var p1 := p.(workers := p.workers[tid := Taking]);
    assert Apply(p, Test(tid)) == p1;
    assert TakeStep(p1, tid, woken) == Q.Take(tid, woken);
    TakesNext(p.q, Q.Take(tid, woken));
  }

  lemma FreeToTake<T>(p: Pool<T>, tid: nat, woken: nat)
    requires RolesInv(p) && tid < |p.workers| && p.workers[tid].Testing?
    requires p.q.waitingPutters != {} ==> woken in p.q.waitingPutters
    ensures tid !in p.q.signalledTakers && Q.Enabled(p.q, Q.Take(tid, woken))
  {
    assert tid !in Q.Takers(p.q) && tid !in Q.Putters(p.q);
    BlockedIs(p.q, tid);
    hide Q.Blocked;
  }

  lemma TakesNext<T>(q: Q.State<T>, step: Q.Step<T>)
    requires Q.Inv(q) && Q.Enabled(q, step) && step.Take? && |q.takes| < |q.puts|
    ensures var q' := Q.Apply(q, step);
            |q'.takes| == |q.takes| + 1 && step.tid !in q'.waitingTakers && q'.takes <= q.puts
  {
    hide Q.Apply, Q.Enabled, Q.Inv;
    Q.TakeServes(q, step);
  }

  /** A worker of a running pool takes the next queued task, runs it and is ready for another. */
  lemma TurnRunsNext<T>(p: Pool<T>, tid: nat, woken: nat)
    requires Inv(p) && p.q.running && tid < |p.workers| && p.workers[tid].Testing? && |p.q.takes| < |p.q.puts|
    requires p.q.waitingPutters != {} ==> woken in p.q.waitingPutters
    ensures var p' := Turn(p, tid, woken);
            && p'.ran == p.ran + [|p.q.takes|] && p'.workers == p.workers
            && |p'.q.takes| == |p.q.takes| + 1 && p'.q.takes <= p.q.puts
  {
    FreeToTake(p, tid, woken);
    TakeStepOf(p, tid, woken);
    hide Inv, Q.Apply, Q.Enabled;
    assert p.workers[tid := Taking][tid := Holding(Some(|p.q.takes|))][tid := Testing] == p.workers;
  }

  /** The worker has a next step. */
  ghost predicate CanStep<T>(p: Pool<T>, tid: nat) {
    Enabled(p, Test(tid)) || Enabled(p, Run(tid)) || exists woken: nat :: Enabled(p, Take(tid, woken))
  }

  /** A running pool never idles over a queued task: some worker can take its next step. */
  lemma NeverIdle<T(!new)>(trace: seq<Pool<T>>, steps: seq<Step<T>>, capacity: Option<nat>, threads: nat, i: nat)
    requires IsRun(trace, steps, capacity, threads) && i < |trace| && threads > 0
    requires trace[i].q.running && |trace[i].q.takes| < |trace[i].q.puts|
    ensures exists tid: nat :: tid < threads && CanStep(trace[i], tid)
  {
    RunKeepsInv(trace, steps, capacity, threads, i);
    RunsUntilStopped(trace, steps, capacity, threads, i);
    SomeoneCanStep(trace[i]);
  }

  lemma SomeoneCanStep<T>(p: Pool<T>)
    requires Inv(p) && p.workers != [] && p.q.running && |p.q.takes| < |p.q.puts|
    requires forall tid :: 0 <= tid < |p.workers| ==> !p.workers[tid].Exited?
    ensures exists tid: nat :: tid < |p.workers| && CanStep(p, tid)
  {
    hide TasksInv;
    var woken: nat := if w :| w in p.q.waitingPutters then w else 0;
    assert p.q.puts == p.q.takes + p.q.queue;
    if p.q.signalledTakers != {} {
      var tid :| tid in p.q.signalledTakers;
      assert tid in Q.Takers(p.q);
      assert Enabled(p, Take(tid, woken));
      assert CanStep(p, tid);
    } else {
      assert p.q.waitingTakers == {} && Q.Takers(p.q) == {};
      assert p.workers[0].Taking? ==> 0 !in Q.Putters(p.q);
      BlockedIs(p.q, 0);
      assert p.workers[0].Taking? ==> Enabled(p, Take(0, woken));
      assert CanStep(p, 0);
    }
  }

  // ---------------------------------------------------------------- stop() comes to an end

  /** How many steps a worker has left once the pool is stopped. */
  function Left(w: Worker): nat {
    match w
    case Exited => 0
    case Testing => 1
    case Holding(_) => 2
    case Taking => 3
  }

  function TotalLeft(workers: seq<Worker>): nat {
    if workers == [] then 0 else Left(workers[0]) + TotalLeft(workers[1..])
  }

  lemma {:induction false} TotalUpdate(workers: seq<Worker>, i: nat, w: Worker)
    requires i < |workers|
    ensures TotalLeft(workers[i := w]) == TotalLeft(workers) - Left(workers[i]) + Left(w)
  {
    if i > 0 {
      assert workers[i := w][1..] == workers[1..][i - 1 := w];
      TotalUpdate(workers[1..], i - 1, w);
    } else {
      assert workers[i := w][1..] == workers[1..];
    }
  }

  lemma {:induction false} TotalBound(workers: seq<Worker>)
    ensures TotalLeft(workers) <= 3 * |workers|
    ensures TotalLeft(workers) == 0 <==> forall i :: 0 <= i < |workers| ==> workers[i].Exited?
  {
    if workers != [] {
      TotalBound(workers[1..]);
      assert forall i :: 0 < i < |workers| ==> workers[i] == workers[1..][i - 1];
      assert forall i :: 0 <= i < |workers| - 1 ==> workers[1..][i] == workers[i + 1];
    }
  }

  /** After `stop()` a step of a worker brings it one step nearer to its exit, and no other step takes one away. */
  lemma StoppedStep<T>(p: Pool<T>, step: Step<T>)
    requires Inv(p) && !p.q.running && Enabled(p, step)
    ensures var p' := Apply(p, step);
            !p'.q.running && TotalLeft(p'.workers) == TotalLeft(p.workers) - (if step.Others? then 0 else 1)
  {
    hide Q.Inv, Q.Takers, Q.Putters, Q.Enabled, Q.Apply, TasksInv, RolesInv, TotalLeft;
    match step
    case Others(s) => OtherEffect(p.q, s);
    case Test(tid) => TotalUpdate(p.workers, tid, Exited);
    case Take(tid, woken) =>
      TakeEffect(p.q, TakeStep(p, tid, woken));
      TotalUpdate(p.workers, tid, Apply(p, step).workers[tid]);
    case Run(tid) => TotalUpdate(p.workers, tid, Testing);
  }

  /** A worker that has not exited can always go on: nobody is left waiting. */
  lemma StoppedProgress<T>(p: Pool<T>, tid: nat)
    requires Inv(p) && !p.q.running && tid < |p.workers| && !p.workers[tid].Exited?
    ensures Enabled(p, Test(tid)) || Enabled(p, Take(tid, 0)) || Enabled(p, Run(tid))
  {
  }

  function WorkerSteps<T>(steps: seq<Step<T>>): nat {
    if steps == [] then 0 else WorkerSteps(steps[..|steps| - 1]) + (if steps[|steps| - 1].Others? then 0 else 1)
  }

  lemma {:induction false} StepsUsedUp<T(!new)>(
    trace: seq<Pool<T>>, steps: seq<Step<T>>, capacity: Option<nat>, threads: nat, i: nat, j: nat)
    requires IsRun(trace, steps, capacity, threads) && i <= j < |trace| && !trace[i].q.running
    ensures !trace[j].q.running
    ensures WorkerSteps(steps[i..j]) + TotalLeft(trace[j].workers) == TotalLeft(trace[i].workers)
    decreases j
  {
    hide Inv, Enabled, Apply, TotalLeft;
    if i < j {
      StepsUsedUp(trace, steps, capacity, threads, i, j - 1);
      RunKeepsInv(trace, steps, capacity, threads, j - 1);
      assert trace[j - 1 + 1] == Apply(trace[j - 1], steps[j - 1]);
      StoppedStep(trace[j - 1], steps[j - 1]);
      assert steps[i..j][..j - i - 1] == steps[i..j - 1] && steps[i..j][j - i - 1] == steps[j - 1];
    }
  }

  /** The joins of `stop()` come to an end: after it the workers together take at most three steps each, whatever the
      other threads do, and as long as one has not exited it can take its next step. */
  lemma StopEndsWorkers<T(!new)>(
    trace: seq<Pool<T>>, steps: seq<Step<T>>, capacity: Option<nat>, threads: nat, i: nat, j: nat)
    requires IsRun(trace, steps, capacity, threads) && i <= j < |trace| && !trace[i].q.running
    ensures WorkerSteps(steps[i..j]) <= 3 * threads
    ensures forall tid :: 0 <= tid < |trace[j].workers| && !trace[j].workers[tid].Exited? ==>
      Enabled(trace[j], Test(tid)) || Enabled(trace[j], Take(tid, 0)) || Enabled(trace[j], Run(tid))
  {
    hide Inv, Enabled, Apply, TotalLeft;
    StepsUsedUp(trace, steps, capacity, threads, i, j);
    RunKeepsInv(trace, steps, capacity, threads, i);
    RunKeepsInv(trace, steps, capacity, threads, j);
    TotalBound(trace[i].workers);
    forall tid | 0 <= tid < |trace[j].workers| && !trace[j].workers[tid].Exited?
      ensures Enabled(trace[j], Test(tid)) || Enabled(trace[j], Take(tid, 0)) || Enabled(trace[j], Run(tid))
    {
      StoppedProgress(trace[j], tid);
    }
  }
}
