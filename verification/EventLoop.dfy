/** The wakeup protocol of net/EventLoop.cc as a state machine.

    One owner thread cycles through `loop()`; any other thread may push a functor under the lock and, as a separate
    step, write the eventfd.  Every step below is one atomic action of one thread; a run is any interleaving. */
module EventLoop {

  type ThreadId = nat

  /** Where the owner thread stands. */
  datatype Phase<T> =
    | Outside                                 // not inside loop()
    | LoopTop                                 // about to test quit_
    | AtPoll                                  // in poller_->poll, blocked unless something is ready
    | Handling(wakeupActive: bool)            // walking activeChannels_; wakeupActive: handleRead still to come
    | Swapping                                // callingPendingFunctors_ set, pendingFunctors_ not yet taken
    | Running(batch: seq<T>, owesWrite: bool) // functors left of the batch; owesWrite: between push and wakeup()

  /** `queued`, `queuedIn`, `outside`, `ran` and `ranIn` record the history: what was pushed, after how many swaps, and
      whether by the owner outside `loop()`; what was run and in which batch.  `promised` counts the wakeups that threads
      have committed themselves to write, `read` how often the eventfd was read. */
  datatype State<T> = State(
    phase: Phase<T>,
    pending: seq<T>,
    counter: nat,
    owing: set<ThreadId>,
    quit: bool,
    swaps: nat,
    queued: seq<T>,
    queuedIn: seq<nat>,
    outside: seq<bool>,
    ran: seq<T>,
    ranIn: seq<nat>,
    promised: nat,
    read: nat)

  /** An eventfd holds at most 2^64 - 2; a non-blocking write beyond that fails and leaves the counter. */
  const MAX_COUNTER := 0xffff_ffff_ffff_fffe

  datatype Step<T> =
    | ThreadPush(tid: ThreadId, functor: T)   // queueInLoop from another thread, under the lock
    | ThreadQuit(tid: ThreadId)               // quit() from another thread
    | ThreadWrite(tid: ThreadId)              // the wakeup() that follows either
    | OwnerPush(functor: T)                   // queueInLoop from the owner, under the lock
    | OwnerWrite                              // its wakeup(), when callingPendingFunctors_
    | OwnerQuit
    | Enter                                   // loop() is called
    | TestQuit
    | PollReturn(wakeupReported: bool)
    | HandleRead
    | EndHandling
    | Swap
    | RunFunctor
    | EndBatch

  function Init<T>(): State<T> {
    State(Outside, [], 0, {}, false, 0, [], [], [], [], [], 0, 0)
  }

  function Write(counter: nat): nat {
    if counter < MAX_COUNTER then counter + 1 else counter
  }

  function Push<T>(s: State<T>, functor: T, outside: bool): State<T> {
    s.(pending := s.pending + [functor], queued := s.queued + [functor], queuedIn := s.queuedIn + [s.swaps],
       outside := s.outside + [outside])
  }

  predicate Enabled<T>(s: State<T>, step: Step<T>) {
    match step
    case ThreadPush(tid, _) => tid !in s.owing
    case ThreadQuit(tid) => tid !in s.owing
    case ThreadWrite(tid) => tid in s.owing
    case OwnerPush(_) => s.phase.Outside? || s.phase.Handling? || (s.phase.Running? && !s.phase.owesWrite)
    case OwnerWrite => s.phase.Running? && s.phase.owesWrite
    case OwnerQuit => s.phase.Outside? || s.phase.Handling? || (s.phase.Running? && !s.phase.owesWrite)
    case Enter => s.phase.Outside?
    case TestQuit => s.phase.LoopTop?
    case PollReturn(wakeupReported) => s.phase.AtPoll? && (wakeupReported ==> s.counter > 0)
    case HandleRead => s.phase.Handling? && s.phase.wakeupActive
    case EndHandling => s.phase.Handling? && !s.phase.wakeupActive
    case Swap => s.phase.Swapping?
    case RunFunctor => s.phase.Running? && !s.phase.owesWrite && s.phase.batch != []
    case EndBatch => s.phase.Running? && !s.phase.owesWrite && s.phase.batch == []
  }

  function Apply<T>(s: State<T>, step: Step<T>): State<T>
    requires Enabled(s, step)
  {
    match step
    case ThreadPush(tid, f) => Push(s, f, false).(owing := s.owing + {tid}, promised := s.promised + 1)
    case ThreadQuit(tid) => s.(quit := true, owing := s.owing + {tid}, promised := s.promised + 1)
    case ThreadWrite(tid) => s.(counter := Write(s.counter), owing := s.owing - {tid})
    case OwnerPush(f) =>
      var s' := Push(s, f, s.phase.Outside?);
      if s.phase.Running? then s'.(phase := s.phase.(owesWrite := true), promised := s.promised + 1) else s'
    case OwnerWrite => s.(counter := Write(s.counter), phase := s.phase.(owesWrite := false))
    case OwnerQuit => s.(quit := true)
    case Enter => s.(phase := LoopTop, quit := false)
    case TestQuit => s.(phase := if s.quit then Outside else AtPoll)
    case PollReturn(wakeupReported) => s.(phase := Handling(wakeupReported))
    case HandleRead => s.(phase := Handling(false), counter := 0, read := s.read + 1)
    case EndHandling => s.(phase := Swapping)
    case Swap => s.(phase := Running(s.pending, false), pending := [], swaps := s.swaps + 1)
    case RunFunctor =>
      s.(phase := s.phase.(batch := s.phase.batch[1..]), ran := s.ran + [s.phase.batch[0]], ranIn := s.ranIn + [s.swaps])
    case EndBatch => s.(phase := LoopTop)
  }

  /** The owner queues only from inside `loop()`. */
  predicate Allowed<T>(s: State<T>, step: Step<T>) {
    step.OwnerPush? ==> !s.phase.Outside?
  }

  ghost predicate Next<T(!new)>(s: State<T>, s': State<T>) {
    exists step :: Enabled(s, step) && Allowed(s, step) && s' == Apply(s, step)
  }

  ghost predicate IsRun<T(!new)>(trace: seq<State<T>>) {
    && trace != [] && trace[0] == Init()
    && forall i :: 0 <= i < |trace| - 1 ==> Next(trace[i], trace[i + 1])
  }

  /** The same with pushes of the owner anywhere. */
  ghost predicate NextAny<T(!new)>(s: State<T>, s': State<T>) {
    exists step :: Enabled(s, step) && s' == Apply(s, step)
  }

  ghost predicate IsAnyRun<T(!new)>(trace: seq<State<T>>) {
    && trace != [] && trace[0] == Init()
    && forall i :: 0 <= i < |trace| - 1 ==> NextAny(trace[i], trace[i + 1])
  }

  // ---------------------------------------------------------------- what every step keeps

  function Batch<T>(s: State<T>): seq<T> {
    if s.phase.Running? then s.phase.batch else []
  }

  /** Somebody has written, or is committed to write, the eventfd. */
  predicate WakeupComing<T>(s: State<T>) {
    s.counter > 0 || s.owing != {} || (s.phase.Running? && s.phase.owesWrite)
  }

  predicate WakeupInv<T>(s: State<T>) {
    && s.counter <= MAX_COUNTER
    && (s.phase.Handling? && s.phase.wakeupActive ==> s.counter > 0)
    && (!s.phase.Handling? && !s.phase.Swapping? && s.pending != [] ==> WakeupComing(s))
  }

  /** Nothing is lost, duplicated or reordered. */
  predicate QueueInv<T(==)>(s: State<T>) {
    s.queued == s.ran + Batch(s) + s.pending
  }

  /** Whatever has run, or is in the current batch, was pushed before that batch was taken. */
  predicate BatchInv<T>(s: State<T>) {
    && |s.queuedIn| == |s.queued| && |s.ranIn| == |s.ran| && |s.ran| + |Batch(s)| <= |s.queued|
    && (forall i :: 0 <= i < |s.queuedIn| ==> s.queuedIn[i] <= s.swaps)
    && (forall i :: 0 <= i < |s.ran| ==> s.queuedIn[i] < s.ranIn[i] <= s.swaps)
    && (forall i :: |s.ran| <= i < |s.ran| + |Batch(s)| ==> s.queuedIn[i] < s.swaps)
  }

  predicate Inv<T(==)>(s: State<T>) {
    WakeupInv(s) && QueueInv(s) && BatchInv(s)
  }

  lemma StepKeepsWakeup<T>(s: State<T>, step: Step<T>)
    requires WakeupInv(s) && Enabled(s, step) && Allowed(s, step)
    ensures WakeupInv(Apply(s, step))
  {
    if step.ThreadPush? || step.ThreadQuit? {
      assert step.tid in Apply(s, step).owing;
    }
  }

  lemma StepKeepsQueue<T>(s: State<T>, step: Step<T>)
    requires QueueInv(s) && Enabled(s, step)
    ensures QueueInv(Apply(s, step))
  {
    if step.RunFunctor? {
      assert s.phase.batch == [s.phase.batch[0]] + s.phase.batch[1..];
    }
  }

  lemma StepKeepsBatches<T>(s: State<T>, step: Step<T>)
    requires QueueInv(s) && BatchInv(s) && Enabled(s, step)
    ensures BatchInv(Apply(s, step))
  {
    var s' := Apply(s, step);
    match step
    case ThreadPush(_, _) => PushKeepsBatches(s, s');
    case OwnerPush(_) => PushKeepsBatches(s, s');
    case _ =>
  }

  lemma PushKeepsBatches<T>(s: State<T>, s': State<T>)
    requires BatchInv(s) && |s'.queued| == |s.queued| + 1 && s'.queuedIn == s.queuedIn + [s.swaps]
    requires s'.swaps == s.swaps && s'.ran == s.ran && s'.ranIn == s.ranIn && Batch(s') == Batch(s)
    ensures BatchInv(s')
  {
  }

  lemma {:induction false} RunKeepsInv<T(!new)>(trace: seq<State<T>>, i: nat)
    requires IsRun(trace) && i < |trace|
    ensures Inv(trace[i])
  {
    if i > 0 {
      RunKeepsInv(trace, i - 1);
      var s := trace[i - 1];
      assert Next(s, trace[i - 1 + 1]);
      var step :| Enabled(s, step) && Allowed(s, step) && trace[i] == Apply(s, step);
      StepKeepsWakeup(s, step);
      StepKeepsQueue(s, step);
      StepKeepsBatches(s, step);
    }
  }

  /** In no interleaving does the loop block in poll with functors pending and no wakeup written or owed; a reported
      wakeup always finds something to read; functors run in queue order, each at most once, and one that a batch
      queues itself runs in a later batch. */
  lemma NoLostWakeup<T(!new)>(trace: seq<State<T>>, i: nat)
    requires IsRun(trace) && i < |trace|
    ensures var s := trace[i];
            && (s.phase.AtPoll? && s.pending != [] ==> s.counter > 0 || s.owing != {})
            && (s.phase.Handling? && s.phase.wakeupActive ==> s.counter > 0)
            && s.ran <= s.queued
            && |s.ranIn| == |s.ran| && |s.queuedIn| == |s.queued|
            && forall j :: 0 <= j < |s.ran| ==> s.queuedIn[j] < s.ranIn[j]
  {
    RunKeepsInv(trace, i);
  }

  // ---------------------------------------------------------------- progress

  /** Apply `n` steps of one kind. */
  function RunFunctors<T>(s: State<T>, n: nat): State<T>
    requires s.phase.Running? && !s.phase.owesWrite && n <= |s.phase.batch|
    decreases n
  {
    if n == 0 then s else RunFunctors(Apply(s, RunFunctor), n - 1)
  }

  lemma {:induction false} RunFunctorsRuns<T>(s: State<T>, n: nat)
    requires s.phase.Running? && !s.phase.owesWrite && n <= |s.phase.batch|
    ensures var s' := RunFunctors(s, n);
            s'.ran == s.ran + s.phase.batch[..n] && s'.phase == Running(s.phase.batch[n..], false)
            && s'.pending == s.pending && s'.queued == s.queued && s'.counter == s.counter && s'.quit == s.quit
            && s'.swaps == s.swaps
    decreases n
  {
    if n > 0 {
      RunFunctorsRuns(Apply(s, RunFunctor), n - 1);
      assert [s.phase.batch[0]] + s.phase.batch[1..][..n - 1] == s.phase.batch[..n];
      assert s.phase.batch[1..][n - 1..] == s.phase.batch[n..];
    }
  }

  /** Once poll has returned, that iteration runs everything queued up to its swap. */
  lemma IterationDrains<T>(s: State<T>)
    requires Inv(s) && s.phase.Swapping?
    ensures var s' := Apply(s, Swap);
            s'.phase.Running? && !s'.phase.owesWrite
            && RunFunctors(s', |s.pending|).ran == s.queued
  {
    RunFunctorsRuns(Apply(s, Swap), |s.pending|);
    assert s.pending[..|s.pending|] == s.pending;
  }

  /** From poll to the batch that is taken; `w` tells whether the wakeup was among the active channels, or poll returned
      for I/O, a timer or its timeout only. */
  function Taken<T>(s: State<T>, w: bool): (r: State<T>)
    requires s.phase.AtPoll? && (w ==> s.counter > 0)
    ensures r.phase == Running(s.pending, false) && r.pending == [] && r.counter == (if w then 0 else s.counter)
    ensures r.queued == s.queued && r.ran == s.ran && r.quit == s.quit && r.swaps == s.swaps + 1
  {
    var p := Apply(s, PollReturn(w));
    var h := if w then Apply(p, HandleRead) else p;
    Apply(Apply(h, EndHandling), Swap)
  }

  /** One undisturbed turn of the loop from poll to poll. */
  function Iteration<T>(s: State<T>, w: bool): State<T>
    requires s.phase.AtPoll? && (w ==> s.counter > 0)
  {
    hide Taken;
    var s1 := Taken(s, w);
    RunFunctorsRuns(s1, |s.pending|);
    Apply(Apply(RunFunctors(s1, |s.pending|), EndBatch), TestQuit)
  }

  /** Whatever poll returned for, the turn takes exactly one batch and runs all that was queued, once and in order; it
      uses up the wakeups if they were reported, and goes back to poll unless it was told to quit. */
  lemma FullIteration<T>(s: State<T>, w: bool)
    requires QueueInv(s) && s.phase.AtPoll? && (w ==> s.counter > 0)
    ensures var s' := Iteration(s, w);
            && s'.ran == s'.queued == s.queued && s'.pending == [] && s'.swaps == s.swaps + 1
            && s'.counter == (if w then 0 else s.counter)
            && s'.phase == (if s.quit then Outside else AtPoll)
            && (w ==> !Enabled(s', PollReturn(true)))
  {
    hide RunFunctors, Taken;
    RunFunctorsRuns(Taken(s, w), |s.pending|);
    assert s.pending[..|s.pending|] == s.pending && s.ran + s.pending == s.queued;
  }

  /** Every turn takes one batch, undisturbed or not: between two points at poll with none in between, in any run, the
      batches taken are one more. */
  lemma OneBatchPerTurn<T(!new)>(trace: seq<State<T>>, i: nat, j: nat)
    requires IsAnyRun(trace) && i + 1 < j < |trace| && trace[i].phase.AtPoll? && trace[j].phase.AtPoll?
    requires forall k :: i < k < j ==> !trace[k].phase.AtPoll?
    ensures trace[j].swaps == trace[i].swaps + 1
  {
    BatchWithinTurn(trace, i, j);
  }

  predicate BeforeBatch<T>(s: State<T>) {
    s.phase.Handling? || s.phase.Swapping?
  }

  lemma {:induction false} BatchWithinTurn<T(!new)>(trace: seq<State<T>>, i: nat, j: nat)
    requires IsAnyRun(trace) && i < j < |trace| && trace[i].phase.AtPoll?
    requires !trace[i + 1].phase.AtPoll? && forall k :: i < k < j ==> !trace[k].phase.AtPoll?
    ensures trace[j].swaps == trace[i].swaps + (if BeforeBatch(trace[j]) then 0 else 1)
    decreases j
  {
    hide Enabled, Apply;
    var s, s' := trace[j - 1], trace[j - 1 + 1];
    assert NextAny(s, s');
    var step :| Enabled(s, step) && s' == Apply(s, step);
    TurnStep(s, step);
    if i + 1 < j {
      BatchWithinTurn(trace, i, j - 1);
    }
  }

  lemma TurnStep<T>(s: State<T>, step: Step<T>)
    requires Enabled(s, step)
    ensures var s' := Apply(s, step);
            && (s.phase.AtPoll? ==> s'.swaps == s.swaps && (s'.phase.AtPoll? || BeforeBatch(s')))
            && (BeforeBatch(s) ==> s'.swaps == s.swaps + (if BeforeBatch(s') then 0 else 1))
            && (!s.phase.AtPoll? && !BeforeBatch(s) ==> s'.swaps == s.swaps && !BeforeBatch(s'))
  {
  }

  // ---------------------------------------------------------------- what becomes of a functor

  /** Queued by another thread while the loop blocks: the loop is woken, and the turn runs it. */
  lemma QueuedByAThread<T>(s: State<T>, tid: ThreadId, f: T)
    requires Inv(s) && s.phase.AtPoll? && tid !in s.owing
    ensures Enabled(s, ThreadPush(tid, f))
    ensures var s1 := Apply(s, ThreadPush(tid, f));
            Enabled(s1, ThreadWrite(tid))
            && var s2 := Apply(s1, ThreadWrite(tid));
               s2.phase.AtPoll? && s2.counter > 0 && Iteration(s2, true).ran == s.queued + [f]
  {
    hide Iteration;
    var s1 := Apply(s, ThreadPush(tid, f));
    StepKeepsQueue(s, ThreadPush(tid, f));
    StepKeepsQueue(s1, ThreadWrite(tid));
    FullIteration(Apply(s1, ThreadWrite(tid)), true);
  }

  /** Queued by the handler of a channel: the same turn runs it. */
  lemma QueuedByAHandler<T>(s: State<T>, f: T)
    requires Inv(s) && s.phase == Handling(false)
    ensures Enabled(s, OwnerPush(f))
    ensures var s1 := Apply(s, OwnerPush(f));
            Enabled(s1, EndHandling)
            && var s2 := Apply(Apply(s1, EndHandling), Swap);
               s2.phase.Running? && s2.phase.batch == s.pending + [f]
               && RunFunctors(s2, |s.pending| + 1).ran == s.queued + [f]
  {
    var s1 := Apply(Apply(s, OwnerPush(f)), EndHandling);
    assert s1.pending == s.pending + [f];
    assert s.ran + [] + s.pending + [f] == s.ran + (s.pending + [f]);
    RunFunctorsRuns(Apply(s1, Swap), |s.pending| + 1);
    assert s1.pending[..|s.pending| + 1] == s1.pending;
  }

  /** Queued by a functor of the batch: this batch does not run it, poll does not block, and the next turn runs it. */
  lemma QueuedByAFunctor<T>(s: State<T>, f: T)
    requires Inv(s) && s.phase.Running? && !s.phase.owesWrite && s.phase.batch == [] && !s.quit
    ensures Enabled(s, OwnerPush(f)) && Enabled(Apply(s, OwnerPush(f)), OwnerWrite)
    ensures var s1 := Apply(Apply(s, OwnerPush(f)), OwnerWrite);
            Enabled(s1, EndBatch)
            && var s2 := Apply(Apply(s1, EndBatch), TestQuit);
               s2.phase.AtPoll? && s2.counter > 0 && s2.ran == s.ran && Iteration(s2, true).ran == s.queued + [f]
  {
    hide Iteration;
    var s1 := Apply(s, OwnerPush(f));
    var s2 := Apply(s1, OwnerWrite);
    StepKeepsQueue(s, OwnerPush(f));
    StepKeepsQueue(s1, OwnerWrite);
    StepKeepsQueue(s2, EndBatch);
    StepKeepsQueue(Apply(s2, EndBatch), TestQuit);
    FullIteration(Apply(Apply(s2, EndBatch), TestQuit), true);
  }

  // ---------------------------------------------------------------- quitting and the eventfd, over the steps of a run

  ghost predicate IsStepRun<T(!new)>(trace: seq<State<T>>, steps: seq<Step<T>>) {
    && |trace| == |steps| + 1 && trace[0] == Init()
    && forall i :: 0 <= i < |steps| ==> Enabled(trace[i], steps[i]) && trace[i + 1] == Apply(trace[i], steps[i])
  }

  /** `quit()` was called after the last entry into `loop()`. */
  predicate QuitAsked<T>(steps: seq<Step<T>>) {
    steps != [] && var last := steps[|steps| - 1];
                   last.ThreadQuit? || last.OwnerQuit? || (!last.Enter? && QuitAsked(steps[..|steps| - 1]))
  }

  /** The loop ends at its next test exactly if `quit()` was called, by any thread, since it was entered: a call before
      that is forgotten. */
  lemma {:induction false} QuitExactly<T(!new)>(trace: seq<State<T>>, steps: seq<Step<T>>, i: nat)
    requires IsStepRun(trace, steps) && i < |trace|
    ensures trace[i].quit <==> QuitAsked(steps[..i])
    ensures trace[i].phase.LoopTop? ==> Apply(trace[i], TestQuit).phase == if QuitAsked(steps[..i]) then Outside else AtPoll
  {
    if i > 0 {
      QuitExactly(trace, steps, i - 1);
      assert trace[i - 1 + 1] == Apply(trace[i - 1], steps[i - 1]);
      assert steps[..i][..i - 1] == steps[..i - 1] && steps[..i][i - 1] == steps[i - 1];
    }
  }

  /** No call of `quit()` is slept through: a loop that blocks in poll after one has a wakeup written or owed. */
  lemma {:induction false} NoLostQuit<T(!new)>(trace: seq<State<T>>, steps: seq<Step<T>>, i: nat)
    requires IsStepRun(trace, steps) && i < |trace|
    ensures trace[i].phase.AtPoll? && QuitAsked(steps[..i]) ==> trace[i].counter > 0 || trace[i].owing != {}
  {
    hide QuitAsked;
    QuitExactly(trace, steps, i);
    if i > 0 {
      NoLostQuit(trace, steps, i - 1);
      QuitExactly(trace, steps, i - 1);
      assert trace[i - 1 + 1] == Apply(trace[i - 1], steps[i - 1]);
      QuitWakes(trace[i - 1], steps[i - 1]);
    }
  }

  lemma QuitWakes<T>(s: State<T>, step: Step<T>)
    requires Enabled(s, step) && (s.phase.AtPoll? && s.quit ==> s.counter > 0 || s.owing != {})
    ensures var s' := Apply(s, step); s'.phase.AtPoll? && s'.quit ==> s'.counter > 0 || s'.owing != {}
  {
    if step.ThreadPush? || step.ThreadQuit? {
      assert step.tid in Apply(s, step).owing;
    }
  }

  /** Writes of the eventfd since it was last read. */
  function Unread<T>(steps: seq<Step<T>>): nat {
    if steps == [] || steps[|steps| - 1].HandleRead? then 0
    else
      var last := steps[|steps| - 1];
      Unread(steps[..|steps| - 1]) + (if last.ThreadWrite? || last.OwnerWrite? then 1 else 0)
  }

  /** The eventfd counts the writes since it was last read, up to 2^64 - 2. */
  lemma {:induction false} CounterCounts<T(!new)>(trace: seq<State<T>>, steps: seq<Step<T>>, i: nat)
    requires IsStepRun(trace, steps) && i < |trace|
    ensures trace[i].counter == if Unread(steps[..i]) < 0xffff_ffff_ffff_fffe then Unread(steps[..i]) else 0xffff_ffff_ffff_fffe
  {
    if i > 0 {
      CounterCounts(trace, steps, i - 1);
      assert trace[i - 1 + 1] == Apply(trace[i - 1], steps[i - 1]);
      assert steps[..i][..i - 1] == steps[..i - 1] && steps[..i][i - 1] == steps[i - 1];
    }
  }

  // ---------------------------------------------------------------- pushes from outside loop()

  /** What is pending without a wakeup was queued by the owner outside `loop()`. */
  predicate MissedInv<T>(s: State<T>) {
    && |s.outside| == |s.queued| && |s.pending| <= |s.queued|
    && s.counter <= MAX_COUNTER
    && (!s.phase.Handling? && !s.phase.Swapping? && !WakeupComing(s) ==>
        forall i :: |s.queued| - |s.pending| <= i < |s.queued| ==> s.outside[i])
  }

  lemma StepKeepsMissed<T>(s: State<T>, step: Step<T>)
    requires MissedInv(s) && Enabled(s, step)
    ensures MissedInv(Apply(s, step))
  {
    if step.ThreadPush? || step.ThreadQuit? {
      assert step.tid in Apply(s, step).owing;
    }
  }

  lemma {:induction false} AnyRunKeeps<T(!new)>(trace: seq<State<T>>, i: nat)
    requires IsAnyRun(trace) && i < |trace|
    ensures MissedInv(trace[i]) && QueueInv(trace[i]) && BatchInv(trace[i])
  {
    if i > 0 {
      AnyRunKeeps(trace, i - 1);
      var s := trace[i - 1];
      assert NextAny(s, trace[i - 1 + 1]);
      var step :| Enabled(s, step) && trace[i] == Apply(s, step);
      StepKeepsMissed(s, step);
      StepKeepsQueue(s, step);
      StepKeepsBatches(s, step);
    }
  }

  /** In every interleaving whatsoever, a poll that blocks with functors pending and no wakeup written or owed holds only
      functors that the owner queued outside `loop()`; and functors still run in queue order, at most once, in a later
      batch than the one they were queued in. */
  lemma OnlyOutsidePushesAreMissed<T(!new)>(trace: seq<State<T>>, i: nat)
    requires IsAnyRun(trace) && i < |trace|
    ensures var s := trace[i];
            && |s.outside| == |s.queued| && s.queued == s.ran + Batch(s) + s.pending
            && (s.phase.AtPoll? && s.counter == 0 && s.owing == {} ==>
                forall j :: |s.ran| <= j < |s.queued| ==> s.outside[j])
            && |s.ranIn| == |s.ran| && |s.queuedIn| == |s.queued|
            && forall j :: 0 <= j < |s.ran| ==> s.queuedIn[j] < s.ranIn[j]
  {
    AnyRunKeeps(trace, i);
  }

  /** As long as the eventfd is not read, a wakeup is on its way exactly if it already was or some thread has promised
      one since. */
  lemma {:induction false} WakeupLasts<T(!new)>(trace: seq<State<T>>, i: nat, j: nat)
    requires IsAnyRun(trace) && i <= j < |trace| && trace[i].read == trace[j].read
    ensures trace[i].promised <= trace[j].promised
    ensures WakeupComing(trace[j]) <==> WakeupComing(trace[i]) || trace[i].promised < trace[j].promised
    decreases j
  {
    hide Enabled, Apply, WakeupComing, IsAnyRun;
    if i < j {
      var step := ReadsGrow(trace, i, j - 1);
      WakeupLasts(trace, i, j - 1);
      StepWakeup(trace[j - 1], step);
    }
  }

  lemma {:induction false} StepWakeup<T>(s: State<T>, step: Step<T>)
    requires Enabled(s, step)
    ensures var s' := Apply(s, step);
            && s.promised <= s'.promised && s.read <= s'.read
            && (s.read == s'.read ==> (WakeupComing(s') <==> WakeupComing(s) || s.promised < s'.promised))
  {
    if step.ThreadPush? || step.ThreadQuit? {
      assert step.tid in Apply(s, step).owing;
    }
  }

  lemma {:induction false} ReadsGrow<T(!new)>(trace: seq<State<T>>, i: nat, j: nat) returns (step: Step<T>)
    requires IsAnyRun(trace) && i <= j && j + 1 < |trace|
    ensures trace[i].read <= trace[j].read <= trace[j + 1].read
    ensures Enabled(trace[j], step) && trace[j + 1] == Apply(trace[j], step)
    decreases j
  {
    hide Enabled, Apply, WakeupComing;
    assert NextAny(trace[j], trace[j + 1]);
    step :| Enabled(trace[j], step) && trace[j + 1] == Apply(trace[j], step);
    StepWakeup(trace[j], step);
    if i < j {
      var _ := ReadsGrow(trace, i, j - 1);
    }
  }

  /** A functor that the owner queues outside `loop()` at point `i` meets a poll at `j`, before the eventfd is read
      again, that will be woken exactly if a wakeup was on its way at `i` or another thread has promised one since. */
  lemma PushBeforeLoop<T(!new)>(trace: seq<State<T>>, i: nat, j: nat, functor: T)
    requires IsAnyRun(trace) && i + 1 <= j < |trace| && trace[i].phase.Outside?
    requires trace[i + 1] == Apply(trace[i], OwnerPush(functor))
    requires trace[j].phase.AtPoll? && trace[j].read == trace[i].read
    ensures trace[j].counter > 0 || trace[j].owing != {}
       <==> trace[i].counter > 0 || trace[i].owing != {} || trace[i].promised < trace[j].promised
  {
    WakeupLasts(trace, i, j);
  }

  /** A fresh loop shows it: the owner's functor waits in the queue while poll blocks with nothing to wake it. */
  lemma PushBeforeFirstLoopIsMissed<T>(functor: T)
    ensures var s := Apply(Apply(Apply(Init(), OwnerPush(functor)), Enter), TestQuit);
            s.phase.AtPoll? && s.pending == [functor] && s.counter == 0 && s.owing == {}
            && !Enabled(s, PollReturn(true))
  {
  }
}
