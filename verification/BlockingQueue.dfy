/** The monitor shared by base/BoundedBlockingQueue.h (`put`, `take`) and base/ThreadPool.cc (`run`, `take`, `stop`):
    a FIFO queue, two condition variables and notify-one.

    A step is one stretch between taking and giving up the mutex.  A waiting thread has released it inside `wait()`;
    a signalled thread has been woken, by a notify or spuriously, but has not got the mutex back yet, so other threads
    may overtake it.  `BoundedBlockingQueue` is the machine with a capacity and no `Stop`; `ThreadPool` has a capacity
    exactly when `maxQueueSize_ > 0`. */
module BlockingQueue {
  import opened Bytes

  type ThreadId = nat

  datatype State<T> = State(
    capacity: Option<nat>,
    running: bool,
    queue: seq<T>,
    waitingTakers: set<ThreadId>,
    signalledTakers: set<ThreadId>,
    waitingPutters: set<ThreadId>,
    signalledPutters: set<ThreadId>,
    inHand: map<ThreadId, T>,  // what each blocked putter wants to put
    puts: seq<T>,              // history: everything pushed
    takes: seq<T>)             // history: everything popped

  /** `woken` is the thread a notify picks, if any waits. */
  datatype Step<T> =
    | Put(tid: ThreadId, x: T, woken: ThreadId)
    | PutAgain(tid: ThreadId, woken: ThreadId)
    | Take(tid: ThreadId, woken: ThreadId)
    | TakeAgain(tid: ThreadId, woken: ThreadId)
    | WakeTaker(tid: ThreadId)
    | WakePutter(tid: ThreadId)
    | Stop

  function Init<T>(capacity: Option<nat>): State<T> {
    State(capacity, true, [], {}, {}, {}, {}, map[], [], [])
  }

  predicate Full<T>(s: State<T>) {
    s.capacity.Some? && |s.queue| >= s.capacity.value
  }

  function Takers<T>(s: State<T>): set<ThreadId> {
    s.waitingTakers + s.signalledTakers
  }

  function Putters<T>(s: State<T>): set<ThreadId> {
    s.waitingPutters + s.signalledPutters
  }

  function Blocked<T>(s: State<T>): set<ThreadId> {
    Takers(s) + Putters(s)
  }

  predicate Enabled<T>(s: State<T>, step: Step<T>) {
    match step
    case Put(tid, _, woken) => tid !in Blocked(s) && (s.waitingTakers != {} ==> woken in s.waitingTakers)
    case PutAgain(tid, woken) =>
      tid in s.signalledPutters && tid in s.inHand && (s.waitingTakers != {} ==> woken in s.waitingTakers)
    case Take(tid, woken) => tid !in Blocked(s) && (s.waitingPutters != {} ==> woken in s.waitingPutters)
    case TakeAgain(tid, woken) =>
      tid in s.signalledTakers && (s.waitingPutters != {} ==> woken in s.waitingPutters)
    case WakeTaker(tid) => tid in s.waitingTakers
    case WakePutter(tid) => tid in s.waitingPutters
    case Stop => s.running
  }

  function NotifyTaker<T>(s: State<T>, woken: ThreadId): State<T> {
    if s.waitingTakers == {} then s
    else s.(waitingTakers := s.waitingTakers - {woken}, signalledTakers := s.signalledTakers + {woken})
  }

  function NotifyPutter<T>(s: State<T>, woken: ThreadId): State<T> {
    if s.waitingPutters == {} then s
    else s.(waitingPutters := s.waitingPutters - {woken}, signalledPutters := s.signalledPutters + {woken})
  }

  /** The body of `put`/`run` for a thread that holds the mutex. */
  function PutBody<T>(s: State<T>, tid: ThreadId, x: T, woken: ThreadId): State<T> {
    if Full(s) && s.running then s.(waitingPutters := s.waitingPutters + {tid}, inHand := s.inHand[tid := x])
    else if !s.running then s
    else NotifyTaker(s.(queue := s.queue + [x], puts := s.puts + [x]), woken)
  }

  /** The body of `take` for a thread that holds the mutex. */
  function TakeBody<T>(s: State<T>, tid: ThreadId, woken: ThreadId): State<T> {
    if s.queue == [] && s.running then s.(waitingTakers := s.waitingTakers + {tid})
    else if s.queue == [] then s
    else NotifyPutter(s.(queue := s.queue[1..], takes := s.takes + [s.queue[0]]), woken)
  }

  function Apply<T>(s: State<T>, step: Step<T>): State<T>
    requires Enabled(s, step)
  {
    match step
    case Put(tid, x, woken) => PutBody(s, tid, x, woken)
    case PutAgain(tid, woken) =>
      PutBody(s.(signalledPutters := s.signalledPutters - {tid}, inHand := s.inHand - {tid}), tid, s.inHand[tid], woken)
    case Take(tid, woken) => TakeBody(s, tid, woken)
    case TakeAgain(tid, woken) => TakeBody(s.(signalledTakers := s.signalledTakers - {tid}), tid, woken)
    case WakeTaker(tid) =>
      s.(waitingTakers := s.waitingTakers - {tid}, signalledTakers := s.signalledTakers + {tid})
    case WakePutter(tid) =>
      s.(waitingPutters := s.waitingPutters - {tid}, signalledPutters := s.signalledPutters + {tid})
    case Stop =>
      s.(running := false,
         waitingTakers := {}, signalledTakers := s.signalledTakers + s.waitingTakers,
         waitingPutters := {}, signalledPutters := s.signalledPutters + s.waitingPutters)
  }

  ghost predicate Next<T(!new)>(s: State<T>, s': State<T>) {
    exists step :: Enabled(s, step) && s' == Apply(s, step)
  }

  ghost predicate IsRun<T(!new)>(trace: seq<State<T>>, capacity: Option<nat>) {
    && trace != [] && trace[0] == Init(capacity)
    && forall i :: 0 <= i < |trace| - 1 ==> Next(trace[i], trace[i + 1])
  }

  // ---------------------------------------------------------------- what every step keeps

  /** A blocked thread is in one place only, and every blocked putter has its element in hand. */
  predicate ThreadsInv<T>(s: State<T>) {
    && s.waitingTakers !! s.signalledTakers
    && s.waitingPutters !! s.signalledPutters
    && Takers(s) !! Putters(s)
    && s.inHand.Keys == Putters(s)
  }

  /** While a taker waits, every queued element has a woken taker on its way; while a putter waits, every free slot has
      a woken putter on its way. */
  predicate SignalInv<T>(s: State<T>) {
    && (s.waitingTakers != {} ==> s.running && |s.queue| <= |s.signalledTakers|)
    && (s.waitingPutters != {} ==>
          s.running && s.capacity.Some? && s.capacity.value - |s.queue| <= |s.signalledPutters|)
  }

  predicate QueueInv<T(==)>(s: State<T>) {
    && (s.capacity.Some? ==> |s.queue| <= s.capacity.value)
    && s.puts == s.takes + s.queue
  }

  predicate Inv<T(==)>(s: State<T>) {
    ThreadsInv(s) && SignalInv(s) && QueueInv(s)
  }

  lemma AddOne(a: set<ThreadId>, tid: ThreadId)
    requires tid !in a
    ensures |a + {tid}| == |a| + 1
  {
  }

  lemma RemoveOne(a: set<ThreadId>, tid: ThreadId)
    requires tid in a
    ensures |a - {tid}| == |a| - 1
  {
  }

  /** A woken taker that gets the mutex back leaves its set. */
  function LeaveTakers<T>(s: State<T>, tid: ThreadId): State<T> {
    s.(signalledTakers := s.signalledTakers - {tid})
  }

  /** A woken putter that gets the mutex back leaves its set. */
  function LeavePutters<T>(s: State<T>, tid: ThreadId): State<T> {
    s.(signalledPutters := s.signalledPutters - {tid}, inHand := s.inHand - {tid})
  }

  lemma LeaveTakersKeeps<T>(s: State<T>, tid: ThreadId)
    requires ThreadsInv(s) && tid in s.signalledTakers
    ensures ThreadsInv(LeaveTakers(s, tid)) && Blocked(LeaveTakers(s, tid)) == Blocked(s) - {tid}
    ensures |LeaveTakers(s, tid).signalledTakers| == |s.signalledTakers| - 1
  {
    var s' := LeaveTakers(s, tid);
    assert Takers(s') == Takers(s) - {tid} && tid in Takers(s);
    RemoveOne(s.signalledTakers, tid);
    hide Takers, Putters;
    assert tid !in Putters(s) && Putters(s') == Putters(s);
  }

  lemma LeavePuttersKeeps<T>(s: State<T>, tid: ThreadId)
    requires ThreadsInv(s) && tid in s.signalledPutters
    ensures ThreadsInv(LeavePutters(s, tid)) && Blocked(LeavePutters(s, tid)) == Blocked(s) - {tid}
    ensures |LeavePutters(s, tid).signalledPutters| == |s.signalledPutters| - 1
  {
    var s' := LeavePutters(s, tid);
    assert Putters(s') == Putters(s) - {tid} && tid in Putters(s);
    RemoveOne(s.signalledPutters, tid);
    hide Takers, Putters;
    assert tid !in Takers(s) && Takers(s') == Takers(s);
  }

  lemma PutKeepsThreads<T>(s: State<T>, tid: ThreadId, x: T, woken: ThreadId)
    requires ThreadsInv(s) && tid !in Blocked(s)
    requires s.waitingTakers != {} ==> woken in s.waitingTakers
    ensures ThreadsInv(PutBody(s, tid, x, woken))
  {
    var s' := PutBody(s, tid, x, woken);
    if Full(s) && s.running {
      assert Putters(s') == Putters(s) + {tid};
    } else {
      assert Takers(s') == Takers(s);
    }
  }

  lemma TakeKeepsThreads<T>(s: State<T>, tid: ThreadId, woken: ThreadId)
    requires ThreadsInv(s) && tid !in Blocked(s)
    requires s.waitingPutters != {} ==> woken in s.waitingPutters
    ensures ThreadsInv(TakeBody(s, tid, woken))
  {
    var s' := TakeBody(s, tid, woken);
    if s.queue == [] && s.running {
      assert Takers(s') == Takers(s) + {tid};
    } else {
      assert Putters(s') == Putters(s);
    }
  }

  /** A put may use up one signalled putter, because it fills one slot; it pays for its element with one notify. */
  lemma PutKeepsSignals<T>(s: State<T>, tid: ThreadId, x: T, woken: ThreadId, left: nat)
    requires QueueInv(s) && s.waitingTakers !! s.signalledTakers && left <= 1
    requires s.waitingTakers != {} ==> woken in s.waitingTakers
    requires s.waitingTakers != {} ==> s.running && |s.queue| <= |s.signalledTakers|
    requires s.waitingPutters != {} ==>
      s.running && s.capacity.Some? && s.capacity.value - |s.queue| <= |s.signalledPutters| + left
    ensures SignalInv(PutBody(s, tid, x, woken))
  {
    if s.running && !Full(s) && s.waitingTakers != {} {
      AddOne(s.signalledTakers, woken);
    }
  }

  /** A take may use up one signalled taker, because it removes one element; it pays for its slot with one notify. */
  lemma TakeKeepsSignals<T>(s: State<T>, tid: ThreadId, woken: ThreadId, left: nat)
    requires QueueInv(s) && s.waitingPutters !! s.signalledPutters && left <= 1
    requires s.waitingPutters != {} ==> woken in s.waitingPutters
    requires s.waitingTakers != {} ==> s.running && |s.queue| <= |s.signalledTakers| + left
    requires s.waitingPutters != {} ==>
      s.running && s.capacity.Some? && s.capacity.value - |s.queue| <= |s.signalledPutters|
    ensures SignalInv(TakeBody(s, tid, woken))
  {
    if s.queue != [] && s.waitingPutters != {} {
      AddOne(s.signalledPutters, woken);
    }
  }

  lemma PutKeepsQueue<T>(s: State<T>, tid: ThreadId, x: T, woken: ThreadId)
    requires QueueInv(s)
    ensures QueueInv(PutBody(s, tid, x, woken))
  {
    assert s.takes + s.queue + [x] == s.takes + (s.queue + [x]);
  }

  lemma TakeKeepsQueue<T>(s: State<T>, tid: ThreadId, woken: ThreadId)
    requires QueueInv(s)
    ensures QueueInv(TakeBody(s, tid, woken))
  {
    if s.queue != [] {
      assert s.takes + s.queue == s.takes + [s.queue[0]] + s.queue[1..];
    }
  }

  lemma PutStep<T>(s: State<T>, tid: ThreadId, x: T, woken: ThreadId, left: nat)
    requires ThreadsInv(s) && QueueInv(s) && tid !in Blocked(s) && left <= 1
    requires s.waitingTakers != {} ==> woken in s.waitingTakers && s.running && |s.queue| <= |s.signalledTakers|
    requires s.waitingPutters != {} ==>
      s.running && s.capacity.Some? && s.capacity.value - |s.queue| <= |s.signalledPutters| + left
    ensures Inv(PutBody(s, tid, x, woken))
  {
    hide PutBody, Blocked;
    PutKeepsThreads(s, tid, x, woken);
    PutKeepsSignals(s, tid, x, woken, left);
    PutKeepsQueue(s, tid, x, woken);
  }

  lemma TakeStep<T>(s: State<T>, tid: ThreadId, woken: ThreadId, left: nat)
    requires ThreadsInv(s) && QueueInv(s) && tid !in Blocked(s) && left <= 1
    requires s.waitingTakers != {} ==> s.running && |s.queue| <= |s.signalledTakers| + left
    requires s.waitingPutters != {} ==>
      && woken in s.waitingPutters && s.running && s.capacity.Some?
      && s.capacity.value - |s.queue| <= |s.signalledPutters|
    ensures Inv(TakeBody(s, tid, woken))
  {
    hide TakeBody, Blocked;
    TakeKeepsThreads(s, tid, woken);
    TakeKeepsSignals(s, tid, woken, left);
    TakeKeepsQueue(s, tid, woken);
  }

  lemma WakeKeepsThreads<T>(s: State<T>, step: Step<T>)
    requires ThreadsInv(s) && Enabled(s, step) && (step.WakeTaker? || step.WakePutter? || step.Stop?)
    ensures ThreadsInv(Apply(s, step)) && Blocked(Apply(s, step)) == Blocked(s)
  {
    var s' := Apply(s, step);
    assert Takers(s') == Takers(s);
    assert Putters(s') == Putters(s);
  }

  lemma WakeKeepsSignals<T>(s: State<T>, step: Step<T>)
    requires ThreadsInv(s) && SignalInv(s) && Enabled(s, step) && (step.WakeTaker? || step.WakePutter? || step.Stop?)
    ensures SignalInv(Apply(s, step))
  {
    match step
    case WakeTaker(tid) => AddOne(s.signalledTakers, tid);
    case WakePutter(tid) => AddOne(s.signalledPutters, tid);
    case Stop =>
  }

  lemma StepKeepsInv<T>(s: State<T>, step: Step<T>)
    requires Inv(s) && Enabled(s, step)
    ensures Inv(Apply(s, step))
  {
    hide PutBody, TakeBody, Blocked, ThreadsInv;
    match step
    case Put(tid, x, woken) => PutStep(s, tid, x, woken, 0);
    case PutAgain(tid, woken) =>
      LeavePuttersKeeps(s, tid);
      PutStep(LeavePutters(s, tid), tid, s.inHand[tid], woken, 1);
    case Take(tid, woken) => TakeStep(s, tid, woken, 0);
    case TakeAgain(tid, woken) =>
      LeaveTakersKeeps(s, tid);
      TakeStep(LeaveTakers(s, tid), tid, woken, 1);
    case _ =>
      WakeKeepsThreads(s, step);
      WakeKeepsSignals(s, step);
  }

  lemma InitInv<T>(capacity: Option<nat>)
    ensures Inv(Init<T>(capacity))
  {
  }

  lemma {:induction false} RunKeepsInv<T(!new)>(trace: seq<State<T>>, capacity: Option<nat>, i: nat)
    requires IsRun(trace, capacity) && i < |trace|
    ensures Inv(trace[i]) && trace[i].capacity == capacity
  {
    hide Inv, Enabled;
    if i == 0 {
      InitInv<T>(capacity);
    } else {
      RunKeepsInv(trace, capacity, i - 1);
      var s := trace[i - 1];
      assert Next(s, trace[i - 1 + 1]);
      var step :| Enabled(s, step) && trace[i] == Apply(s, step);
      StepKeepsInv(s, step);
    }
  }

  // ---------------------------------------------------------------- main results

  /** Nobody is on the way back to the mutex. */
  predicate Quiet<T>(s: State<T>) {
    s.signalledTakers == {} && s.signalledPutters == {}
  }

  /** No wakeup is lost: once no signalled thread is left, a taker waits only for an empty queue and a putter only for a
      full one, so takers and putters never wait at the same time unless the capacity is 0; the queue never exceeds
      its capacity and is served first in, first out. */
  lemma NoLostWakeup<T(!new)>(trace: seq<State<T>>, capacity: Option<nat>, i: nat)
    requires IsRun(trace, capacity) && i < |trace|
    ensures var s := trace[i];
            && (capacity.Some? ==> |s.queue| <= capacity.value)
            && s.takes <= s.puts
            && (Quiet(s) && s.waitingTakers != {} ==> s.queue == [])
            && (Quiet(s) && s.waitingPutters != {} ==> capacity.Some? && |s.queue| == capacity.value)
            && (Quiet(s) && s.waitingTakers != {} && s.waitingPutters != {} ==> capacity == Some(0))
  {
    RunKeepsInv(trace, capacity, i);
  }

  /** With capacity 0 the queue is full and empty at once: one put and one take block each other for good. */
  lemma CapacityZeroDeadlocks<T(!new)>(x: T)
    ensures var s0 := Init<T>(Some(0));
            var s1 := Apply(s0, Put(1, x, 0));
            var s2 := Apply(s1, Take(2, 1));
            IsRun([s0, s1, s2], Some(0)) && Quiet(s2) && s2.waitingTakers == {2} && s2.waitingPutters == {1}
  {
    var s0 := Init<T>(Some(0));
    var s1 := Apply(s0, Put(1, x, 0));
    var s2 := Apply(s1, Take(2, 1));
    assert Next(s0, s1);
    assert Next(s1, s2);
  }

  lemma SameSets<T>(s: State<T>, s': State<T>)
    requires s'.waitingTakers == s.waitingTakers && s'.signalledTakers == s.signalledTakers
    requires s'.waitingPutters == s.waitingPutters && s'.signalledPutters == s.signalledPutters
    ensures Blocked(s') == Blocked(s)
  {
  }

  lemma StoppedStep<T>(s: State<T>, step: Step<T>)
    requires Inv(s) && !s.running && Enabled(s, step)
    ensures var s' := Apply(s, step);
            Blocked(s') == Blocked(s) - (if step.TakeAgain? || step.PutAgain? then {step.tid} else {})
  {
    hide Blocked, ThreadsInv;
    var s' := Apply(s, step);
    match step
    case TakeAgain(tid, woken) =>
      LeaveTakersKeeps(s, tid);
      SameSets(LeaveTakers(s, tid), s');
    case PutAgain(tid, woken) =>
      LeavePuttersKeeps(s, tid);
      SameSets(LeavePutters(s, tid), s');
    case Put(_, _, _) => SameSets(s, s');
    case Take(_, _) => SameSets(s, s');
    case _ =>
  }

  /** After `stop()` no thread waits any more, whatever happens; a signalled thread that gets the mutex returns, nobody
      new gets stuck, and nothing more is put. */
  lemma StopReleases<T(!new)>(trace: seq<State<T>>, capacity: Option<nat>, i: nat, step: Step<T>)
    requires IsRun(trace, capacity) && i < |trace| && !trace[i].running && Enabled(trace[i], step)
    ensures var s, s' := trace[i], Apply(trace[i], step);
            && s.waitingTakers == {} && s.waitingPutters == {}
            && !s'.running && s'.waitingTakers == {} && s'.waitingPutters == {}
            && Blocked(s') <= Blocked(s)
            && ((step.TakeAgain? || step.PutAgain?) ==> |Blocked(s')| == |Blocked(s)| - 1)
            && s'.puts == s.puts
  {
    hide ThreadsInv, QueueInv, Blocked;
    RunKeepsInv(trace, capacity, i);
    var s := trace[i];
    StoppedStep(s, step);
    if step.TakeAgain? || step.PutAgain? {
      SignalledIsBlocked(s, step.tid);
      RemoveOne(Blocked(s), step.tid);
    }
  }

  /** The queue runs until `stop()`, and no longer; nothing starts it again. */
  lemma RunsUntilStop<T>(s: State<T>, step: Step<T>)
    requires Enabled(s, step)
    ensures Apply(s, step).running <==> s.running && !step.Stop?
  {
  }

  lemma SignalledIsBlocked<T>(s: State<T>, tid: ThreadId)
    ensures tid in s.signalledTakers || tid in s.signalledPutters ==> tid in Blocked(s)
  {
  }

  /** A thread that gets to take: the next element in the order of the puts if there is one; otherwise it waits if the
      queue runs, and returns empty-handed if it was stopped. */
  lemma TakeServes<T>(s: State<T>, step: Step<T>)
    requires Inv(s) && Enabled(s, step) && (step.Take? || step.TakeAgain?)
    ensures var s' := Apply(s, step);
            if |s.takes| < |s.puts| then s'.takes == s.puts[..|s.takes| + 1] && step.tid !in s'.waitingTakers
            else s'.takes == s.takes && (step.tid in s'.waitingTakers <==> s.running)
  {
    hide SignalInv;
    if s.queue != [] {
      assert s.puts[..|s.takes| + 1] == s.takes + [s.queue[0]];
    }
    if step.Take? {
      assert step.tid !in Takers(s);
    }
  }

  /** A thread that gets to put: its element goes last if there is room, it waits with it in hand if not, and it returns
      without putting if the queue was stopped. */
  lemma PutServes<T>(s: State<T>, step: Step<T>)
    requires Inv(s) && Enabled(s, step) && (step.Put? || step.PutAgain?)
    ensures var s' := Apply(s, step);
            var x := if step.Put? then step.x else s.inHand[step.tid];
            if !s.running then s'.puts == s.puts && step.tid !in Putters(s')
            else if s.capacity.Some? && |s.queue| == s.capacity.value then
              s'.puts == s.puts && step.tid in s'.waitingPutters && step.tid in s'.inHand && s'.inHand[step.tid] == x
            else s'.puts == s.puts + [x] && step.tid !in Putters(s')
  {
    hide SignalInv;
    if step.Put? {
      assert step.tid !in Putters(s);
    }
  }
}
