/** The connection state machine of net/Connector.cc.

    The model carries, besides the connector's own fields, the part of the event loop it uses: the functors it has
    queued, in order, and the retry timers it has set.  Sockets are numbered as they are created; `closed` and
    `handedOver` log what happens to them. */
module Connector {
  import opened Bytes

  datatype Status = Disconnected | Connecting | Connected

  datatype Functor = StartInLoop | StopInLoop | ResetChannel

  /** The classes of `errno` that `connect` distinguishes. */
  datatype Outcome = InProgress | TryAgain | Fatal

  const INIT_RETRY_DELAY := 500
  const MAX_RETRY_DELAY := 30000

  function NextDelay(ms: nat): nat {
    if 2 * ms < MAX_RETRY_DELAY then 2 * ms else MAX_RETRY_DELAY
  }

  /** The delay after `k` doublings. */
  function Delay(k: nat): nat {
    if k == 0 then INIT_RETRY_DELAY else NextDelay(Delay(k - 1))
  }

  function Pow2(k: nat): nat {
    if k == 0 then 1 else 2 * Pow2(k - 1)
  }

  /** The k-th delay is 500 ms doubled k times, capped at 30 s. */
  lemma {:induction false} DelayClosedForm(k: nat)
    ensures Delay(k) == if 500 * Pow2(k) < 30000 then 500 * Pow2(k) else 30000
  {
    if k > 0 {
      DelayClosedForm(k - 1);
    }
  }

  predicate Distinct(s: seq<nat>) {
    forall i, j :: 0 <= i < j < |s| ==> s[i] != s[j]
  }

  /** Every socket created so far was closed once, or handed over once, or is the one being connected. */
  ghost predicate Accounted(created: nat, closed: seq<nat>, handedOver: seq<nat>, open: Option<nat>) {
    && Distinct(closed) && Distinct(handedOver)
    && (forall fd :: fd in closed ==> fd < created && fd !in handedOver)
    && (forall fd :: fd in handedOver ==> fd < created)
    && (open.Some? ==> open.value < created && open.value !in closed && open.value !in handedOver)
    && (forall fd: nat :: fd < created ==> fd in closed || fd in handedOver || open == Some(fd))
  }

  lemma {:induction false} Create(created: nat, closed: seq<nat>, handedOver: seq<nat>)
    requires Accounted(created, closed, handedOver, None)
    ensures Accounted(created + 1, closed, handedOver, Some(created))
  {
  }

  lemma {:induction false} Close(created: nat, closed: seq<nat>, handedOver: seq<nat>, fd: nat)
    requires Accounted(created, closed, handedOver, Some(fd))
    ensures Accounted(created, closed + [fd], handedOver, None)
  {
    assert forall x :: x in closed + [fd] <==> x in closed || x == fd;
  }

  lemma {:induction false} HandOver(created: nat, closed: seq<nat>, handedOver: seq<nat>, fd: nat)
    requires Accounted(created, closed, handedOver, Some(fd))
    ensures Accounted(created, closed, handedOver + [fd], None)
  {
    assert forall x :: x in handedOver + [fd] <==> x in handedOver || x == fd;
  }

  // ---------------------------------------------------------------- the connector as a value

  /** The fields, the functors queued, the retry timers set, and the log of sockets.  `delays` are the retry delays since
      construction or the last restart. */
  datatype Model = Model(
    status: Status,
    connect: bool,
    channel: Option<nat>,
    started: bool,
    pending: seq<Functor>,
    timers: nat,
    created: nat,
    closed: seq<nat>,
    handedOver: seq<nat>,
    delays: seq<nat>)

  const INITIAL := Model(Disconnected, false, None, false, [], 0, 0, [], [], [])

  function Queued(m: Model, f: Functor): nat {
    multiset(m.pending)[f]
  }

  /** `retry`: the socket is closed and, unless stopped, a timer set with the next delay. */
  function Retried(m: Model, fd: nat): Model {
    var n := m.(closed := m.closed + [fd], status := Disconnected);
    if m.connect then n.(timers := m.timers + 1, delays := m.delays + [Delay(|m.delays|)]) else n
  }

  /** `startInLoop` with `connect` and `connecting`.  Here and below `None` means that an assert fails or a channel that
      is not there is used. */
  function Attempted(m: Model, outcome: Outcome): Option<Model> {
    if m.status != Disconnected then None
    else if !m.connect then Some(m)
    else
      var n := m.(created := m.created + 1);
      match outcome
      case InProgress =>
        if m.channel.Some? then None else Some(n.(status := Connecting, channel := Some(m.created)))
      case TryAgain => Some(Retried(n, m.created))
      case Fatal => Some(n.(closed := n.closed + [m.created]))
  }

  /** `stopInLoop` and `handleError`: give up the socket being connected. */
  function GivenUp(m: Model): Option<Model> {
    if m.status != Connecting then Some(m)
    else if m.channel.None? then None
    else Some(Retried(m.(pending := m.pending + [ResetChannel]), m.channel.value))
  }

  /** `handleWrite`. */
  function Writable(m: Model, socketError: bool, selfConnect: bool): Option<Model> {
    if m.status == Connected then None
    else if m.status == Disconnected then Some(m)
    else if m.channel.None? || socketError || selfConnect then GivenUp(m)
    else
      var n := m.(pending := m.pending + [ResetChannel], status := Connected);
      Some(if m.connect then n.(handedOver := m.handedOver + [m.channel.value])
           else n.(closed := m.closed + [m.channel.value]))
  }

  function FunctorRun(m: Model, outcome: Outcome): Option<Model>
    requires m.pending != []
  {
    var n := m.(pending := m.pending[1..]);
    match m.pending[0]
    case StartInLoop => Attempted(n, outcome)
    case StopInLoop => GivenUp(n)
    case ResetChannel => Some(n.(channel := None))
  }

  /** Everything that can happen to a connector; `outcome` is that of the connect the event may lead to. */
  datatype Event =
    | StartCall(inLoopThread: bool, outcome: Outcome)
    | StopCall
    | Functors(outcome: Outcome)
    | Timer(outcome: Outcome)
    | Poll(error: bool, write: bool, socketError: bool, selfConnect: bool)
    | RestartCall(outcome: Outcome)

  /** When the environment may produce the event: one start, restart only from a connected state. */
  predicate CanHappen(m: Model, e: Event) {
    match e
    case StartCall(_, _) => !m.started
    case StopCall => true
    case Functors(_) => m.pending != []
    case Timer(_) => m.timers > 0
    case Poll(_, _, _, _) => m.status == Connecting
    case RestartCall(_) => m.status == Connected
  }

  function After(m: Model, e: Event): Option<Model>
    requires CanHappen(m, e)
  {
    match e
    case StartCall(inLoopThread, outcome) =>
      var n := m.(connect := true, started := true);
      if inLoopThread then Attempted(n, outcome) else Some(n.(pending := n.pending + [StartInLoop]))
    case StopCall => Some(m.(connect := false, pending := m.pending + [StopInLoop]))
    case Functors(outcome) => FunctorRun(m, outcome)
    case Timer(outcome) => Attempted(m.(timers := m.timers - 1), outcome)
    case Poll(error, write, socketError, selfConnect) =>
      var n := if error then GivenUp(m) else Some(m);
      if n.None? || !write then n else Writable(n.value, socketError, selfConnect)
    case RestartCall(outcome) => Attempted(m.(status := Disconnected, connect := true, delays := []), outcome)
  }

  // ---------------------------------------------------------------- what every event keeps

  /** The socket that is open and still ours. */
  function Open(m: Model): Option<nat> {
    if m.status == Connecting then m.channel else None
  }

  /** At most one attempt is under way or scheduled, none while connected. */
  predicate OneAttempt(m: Model) {
    && m.timers + Queued(m, StartInLoop) + (if m.status == Connecting then 1 else 0) <= 1
    && (m.status == Connected ==> m.timers == 0 && Queued(m, StartInLoop) == 0)
    && (!m.started ==> m.status == Disconnected && m.timers == 0 && Queued(m, StartInLoop) == 0)
  }

  /** The channel is there exactly while connecting or until its deferred reset. */
  predicate ChannelOk(m: Model) {
    && (!m.started || Queued(m, StartInLoop) > 0 ==> Queued(m, ResetChannel) == 0)
    && Queued(m, ResetChannel) <= 1
    && (m.status == Connecting ==>
          m.channel.Some? && m.channel.value + 1 == m.created && Queued(m, ResetChannel) == 0)
    && (m.status != Connecting ==> (m.channel.Some? <==> Queued(m, ResetChannel) == 1))
  }

  /** Every socket was closed once or handed over once, never both, or is the one being connected. */
  ghost predicate SocketsOk(m: Model) {
    && Accounted(m.created, m.closed, m.handedOver, Open(m))
    && |m.closed| + |m.handedOver| + (if m.status == Connecting then 1 else 0) == m.created
  }

  predicate DelaysOk(m: Model) {
    forall k :: 0 <= k < |m.delays| ==> m.delays[k] == Delay(k)
  }

  ghost predicate Valid(m: Model) {
    OneAttempt(m) && ChannelOk(m) && SocketsOk(m) && DelaysOk(m)
  }

  lemma {:induction false} QueuedMore(m: Model, f: Functor)
    ensures var n := m.(pending := m.pending + [f]);
            forall g :: Queued(n, g) == Queued(m, g) + (if g == f then 1 else 0)
  {
  }

  lemma {:induction false} QueuedLess(m: Model)
    requires m.pending != []
    ensures var n := m.(pending := m.pending[1..]);
            forall g :: Queued(m, g) == Queued(n, g) + (if g == m.pending[0] then 1 else 0)
  {
    assert m.pending == [m.pending[0]] + m.pending[1..];
  }

  lemma {:induction false} RetryKeepsDelays(m: Model, fd: nat)
    requires DelaysOk(m)
    ensures DelaysOk(Retried(m, fd))
  {
  }

  /** Nothing is under way or scheduled. */
  predicate Idle(m: Model) {
    m.started && m.status == Disconnected && m.timers == 0 && Queued(m, StartInLoop) == 0
  }

  lemma {:induction false} AttemptKeeps(m: Model, outcome: Outcome)
    requires Valid(m) && Idle(m)
    ensures Attempted(m, outcome).None? <==> m.connect && outcome == InProgress && Queued(m, ResetChannel) == 1
    ensures Attempted(m, outcome).Some? ==> Valid(Attempted(m, outcome).value)
  {
    hide Accounted, Delay;
    if m.connect && Attempted(m, outcome).Some? {
      Create(m.created, m.closed, m.handedOver);
      if outcome != InProgress {
        Close(m.created + 1, m.closed, m.handedOver, m.created);
        RetryKeepsDelays(m.(created := m.created + 1), m.created);
      }
    }
  }

  lemma {:induction false} GiveUpKeeps(m: Model)
    requires Valid(m) && m.started
    ensures GivenUp(m).Some? && Valid(GivenUp(m).value) && GivenUp(m).value.started
    ensures m.status == Connecting ==> GivenUp(m).value.status == Disconnected
  {
    hide Accounted, Delay;
    if m.status == Connecting {
      QueuedMore(m, ResetChannel);
      Close(m.created, m.closed, m.handedOver, m.channel.value);
      RetryKeepsDelays(m.(pending := m.pending + [ResetChannel]), m.channel.value);
    }
  }

  lemma {:induction false} WriteKeeps(m: Model, socketError: bool, selfConnect: bool)
    requires Valid(m) && m.started && m.status != Connected
    ensures Writable(m, socketError, selfConnect).Some? && Valid(Writable(m, socketError, selfConnect).value)
  {
    hide Accounted, Delay;
    GiveUpKeeps(m);
    if m.status == Connecting {
      QueuedMore(m, ResetChannel);
      Close(m.created, m.closed, m.handedOver, m.channel.value);
      HandOver(m.created, m.closed, m.handedOver, m.channel.value);
    }
  }

  lemma {:induction false} FunctorKeeps(m: Model, outcome: Outcome)
    requires Valid(m) && m.pending != []
    ensures FunctorRun(m, outcome).Some? && Valid(FunctorRun(m, outcome).value)
  {
    hide Accounted, Delay;
    QueuedLess(m);
    var n := m.(pending := m.pending[1..]);
    match m.pending[0]
    case StartInLoop =>
      assert Valid(n);
      AttemptKeeps(n, outcome);
    case StopInLoop =>
      assert Valid(n);
      if m.started {
        GiveUpKeeps(n);
      }
    case ResetChannel =>
  }

  /** The event starts an attempt that gets under way while the channel of the last one awaits its reset. */
  predicate RacesReset(m: Model, e: Event) {
    && Queued(m, ResetChannel) == 1
    && ((e.Timer? && m.connect && e.outcome == InProgress) || (e.RestartCall? && e.outcome == InProgress))
  }

  /** Every event keeps the invariant and all asserts hold, save exactly the one of `connecting`, and exactly when a
      timer or a restart overtakes the deferred reset, a connection is still wanted and gets under way. */
  lemma {:induction false} EventKeeps(m: Model, e: Event)
    requires Valid(m) && CanHappen(m, e)
    ensures After(m, e).None? <==> RacesReset(m, e)
    ensures After(m, e).Some? ==> Valid(After(m, e).value)
  {
    match e
    case StartCall(inLoopThread, outcome) => StartKeeps(m, inLoopThread, outcome);
    case StopCall => QueuedMore(m, StopInLoop);
    case Functors(outcome) => FunctorKeeps(m, outcome);
    case Timer(outcome) => TimerKeeps(m, outcome);
    case Poll(error, write, socketError, selfConnect) => PollKeeps(m, error, write, socketError, selfConnect);
    case RestartCall(outcome) => RestartKeeps(m, outcome);
  }

  lemma {:induction false} StartKeeps(m: Model, inLoopThread: bool, outcome: Outcome)
    requires Valid(m) && !m.started
    ensures After(m, StartCall(inLoopThread, outcome)).Some?
    ensures Valid(After(m, StartCall(inLoopThread, outcome)).value)
  {
    hide Accounted, Delay, Attempted;
    var n := m.(connect := true, started := true);
    assert Valid(n);
    if inLoopThread {
      AttemptKeeps(n, outcome);
    } else {
      QueuedMore(n, StartInLoop);
    }
  }

  lemma {:induction false} TimerKeeps(m: Model, outcome: Outcome)
    requires Valid(m) && m.timers > 0
    ensures After(m, Timer(outcome)).None? <==> RacesReset(m, Timer(outcome))
    ensures After(m, Timer(outcome)).Some? ==> Valid(After(m, Timer(outcome)).value)
  {
    hide Accounted, Delay, Attempted;
    var n := m.(timers := m.timers - 1);
    assert Valid(n);
    AttemptKeeps(n, outcome);
  }

  lemma {:induction false} RestartKeeps(m: Model, outcome: Outcome)
    requires Valid(m) && m.status == Connected
    ensures After(m, RestartCall(outcome)).None? <==> RacesReset(m, RestartCall(outcome))
    ensures After(m, RestartCall(outcome)).Some? ==> Valid(After(m, RestartCall(outcome)).value)
  {
    hide Accounted, Attempted;
    var n := m.(status := Disconnected, connect := true, delays := []);
    assert Valid(n);
    AttemptKeeps(n, outcome);
  }

  lemma {:induction false} PollKeeps(m: Model, error: bool, write: bool, socketError: bool, selfConnect: bool)
    requires Valid(m) && m.status == Connecting
    ensures After(m, Poll(error, write, socketError, selfConnect)).Some?
    ensures Valid(After(m, Poll(error, write, socketError, selfConnect)).value)
  {
    hide Accounted, Delay, GivenUp, Writable;
    GiveUpKeeps(m);
    var n := if error then GivenUp(m).value else m;
    assert n.started;
    WriteKeeps(n, socketError, selfConnect);
  }

  // ---------------------------------------------------------------- what an event does

  /** The event starts an attempt. */
  predicate Attempts(m: Model, e: Event) {
    match e
    case StartCall(inLoopThread, _) => inLoopThread
    case Functors(_) => m.pending != [] && m.pending[0] == StartInLoop && m.connect
    case Timer(_) => m.connect
    case RestartCall(_) => true
    case _ => false
  }

  /** The socket being connected turns out writable, and sound. */
  predicate Completes(e: Event) {
    e.Poll? && !e.error && e.write && !e.socketError && !e.selfConnect
  }

  /** The socket being connected is given up. */
  predicate GivesUp(m: Model, e: Event) {
    match e
    case Functors(_) => m.status == Connecting && m.pending != [] && m.pending[0] == StopInLoop
    case Poll(error, write, socketError, selfConnect) => error || (write && (socketError || selfConnect))
    case _ => false
  }

  /** A socket is closed and a retry may follow. */
  predicate Fails(m: Model, e: Event) {
    GivesUp(m, e) || (Attempts(m, e) && e.outcome == TryAgain)
  }

  /** A new socket for every attempt; the one being connected is handed over when it completes and is wanted, closed
      when it completes and is not, or is given up; a new one is closed at once unless its connect is in progress. */
  predicate SocketsAfter(m: Model, e: Event, n: Model) {
    && n.created == m.created + (if Attempts(m, e) then 1 else 0)
    && n.handedOver == (if Completes(e) && m.connect then m.handedOver + [m.created - 1] else m.handedOver)
    && n.closed == (if Attempts(m, e) && e.outcome != InProgress then m.closed + [m.created]
                    else if GivesUp(m, e) || (Completes(e) && !m.connect) then m.closed + [m.created - 1]
                    else m.closed)
  }

  /** One timer and one delay for every failure while a connection is wanted; a restart starts the delays anew. */
  predicate TimersAfter(m: Model, e: Event, n: Model) {
    var delays := if e.RestartCall? then [] else m.delays;
    && n.connect == (e.StartCall? || e.RestartCall? || (m.connect && !e.StopCall?))
    && n.timers == m.timers - (if e.Timer? then 1 else 0) + (if Fails(m, e) && n.connect then 1 else 0)
    && n.delays == (if Fails(m, e) && n.connect then delays + [Delay(|delays|)] else delays)
  }

  predicate StatusAfter(m: Model, e: Event, n: Model) {
    && (n.status == Connecting <==>
          (Attempts(m, e) && e.outcome == InProgress)
          || (m.status == Connecting && !GivesUp(m, e) && !Completes(e)))
    && (n.status == Connected <==> Completes(e) || (m.status == Connected && !e.RestartCall?))
  }

  predicate QueueAfter(m: Model, e: Event, n: Model) {
    var pending := if e.Functors? && m.pending != [] then m.pending[1..] else m.pending;
    n.pending == if e.StopCall? then pending + [StopInLoop]
                 else if e.StartCall? && !e.inLoopThread then pending + [StartInLoop]
                 else if GivesUp(m, e) || Completes(e) then pending + [ResetChannel]
                 else pending
  }

  lemma {:induction false} SocketEffect(m: Model, e: Event)
    requires Valid(m) && CanHappen(m, e) && After(m, e).Some?
    ensures SocketsAfter(m, e, After(m, e).value)
  {
    hide Accounted, Delay, DelaysOk, SocketsOk;
    if e.Functors? {
      QueuedLess(m);
    }
  }

  lemma {:induction false} TimerEffect(m: Model, e: Event)
    requires Valid(m) && CanHappen(m, e) && After(m, e).Some?
    ensures TimersAfter(m, e, After(m, e).value)
  {
    hide Accounted, Delay, DelaysOk, SocketsOk;
    if e.Functors? {
      QueuedLess(m);
    }
  }

  lemma {:induction false} StatusEffect(m: Model, e: Event)
    requires Valid(m) && CanHappen(m, e) && After(m, e).Some?
    ensures StatusAfter(m, e, After(m, e).value)
  {
    hide Accounted, Delay, DelaysOk;
    if e.Functors? {
      QueuedLess(m);
    }
  }

  lemma {:induction false} QueueEffect(m: Model, e: Event)
    requires Valid(m) && CanHappen(m, e) && After(m, e).Some?
    ensures QueueAfter(m, e, After(m, e).value)
  {
    hide Accounted, Delay, DelaysOk;
    if e.Functors? {
      QueuedLess(m);
    }
  }

  /** The whole effect of an event that goes through. */
  lemma {:induction false} EventEffect(m: Model, e: Event)
    requires Valid(m) && CanHappen(m, e) && After(m, e).Some?
    ensures var n := After(m, e).value;
            SocketsAfter(m, e, n) && TimersAfter(m, e, n) && StatusAfter(m, e, n) && QueueAfter(m, e, n)
  {
    hide After, Valid;
    SocketEffect(m, e);
    TimerEffect(m, e);
    StatusEffect(m, e);
    QueueEffect(m, e);
  }

  /** What can fail in each callback, in any state whatsoever: the assert on the state at the start of an attempt, the
      assert on the channel when a connect gets under way, the assert on the state of a writable socket, and the use of
      a channel that is not there. */
  lemma {:induction false} FailuresExactly(m: Model, outcome: Outcome, socketError: bool, selfConnect: bool)
    ensures Attempted(m, outcome).None? <==>
      m.status != Disconnected || (m.connect && outcome == InProgress && m.channel.Some?)
    ensures Writable(m, socketError, selfConnect).None? <==>
      m.status == Connected || (m.status == Connecting && m.channel.None?)
    ensures GivenUp(m).None? <==> m.status == Connecting && m.channel.None?
  {
  }

  // ---------------------------------------------------------------- whole runs

  /** Which of the events happen, an event being skipped where the environment cannot produce it, and where they lead. */
  function History(events: seq<Event>): (seq<Event>, Option<Model>) {
    if events == [] then ([], Some(INITIAL))
    else
      var (done, m) := History(events[..|events| - 1]);
      var e := events[|events| - 1];
      if m.None? || !CanHappen(m.value, e) then (done, m) else (done + [e], After(m.value, e))
  }

  /** In every run: at most one attempt at a time; a channel exactly while connecting or until its reset; every socket
      closed once or handed over once, never both, save the one being connected; and the k-th retry delay since
      construction or the last restart is the k-th doubling of 500 ms, capped at 30 s. */
  lemma {:induction false} RunKeepsValid(events: seq<Event>)
    requires History(events).1.Some?
    ensures Valid(History(events).1.value)
  {
    hide Valid, After;
    if events == [] {
      InitialIsValid();
    } else {
      var before, e := events[..|events| - 1], events[|events| - 1];
      RunKeepsValid(before);
      var m := History(before).1.value;
      if CanHappen(m, e) {
        EventKeeps(m, e);
      }
    }
  }

  lemma {:induction false} InitialIsValid()
    ensures Valid(INITIAL)
  {
  }

  /** A run is cut short by a failing assert exactly if some event in it races the deferred reset. */
  lemma {:induction false} RunFailsExactly(events: seq<Event>)
    ensures History(events).1.None? <==> exists k :: 0 <= k < |events| && RaceAt(events, k)
  {
    hide Valid, After, RacesReset;
    if events != [] {
      var n := |events| - 1;
      var before, e := events[..n], events[n];
      RunFailsExactly(before);
      forall k | 0 <= k < n
        ensures RaceAt(events, k) <==> RaceAt(before, k)
      {
        assert before[..k] == events[..k];
      }
      var m := History(before).1;
      if m.Some? {
        RunKeepsValid(before);
        if CanHappen(m.value, e) {
          EventKeeps(m.value, e);
          assert RaceAt(events, n) <==> RacesReset(m.value, e);
        }
      }
    }
  }

  /** Event `k` races the reset. */
  predicate RaceAt(events: seq<Event>, k: nat)
    requires k < |events|
  {
    var m := History(events[..k]).1;
    m.Some? && CanHappen(m.value, events[k]) && RacesReset(m.value, events[k])
  }

  /** A connection is wanted: no stop came after the last start or restart. */
  predicate Wanted(done: seq<Event>) {
    done != [] && var last := done[|done| - 1];
                  last.StartCall? || last.RestartCall? || (!last.StopCall? && Wanted(done[..|done| - 1]))
  }

  lemma {:induction false} WantedExactly(events: seq<Event>)
    requires History(events).1.Some?
    ensures History(events).1.value.connect <==> Wanted(History(events).0)
  {
    hide Valid, After, CanHappen;
    if events != [] {
      var n := |events| - 1;
      var (done, m) := History(events[..n]);
      WantedExactly(events[..n]);
      RunKeepsValid(events[..n]);
      if CanHappen(m.value, events[n]) {
        EventEffect(m.value, events[n]);
        assert (done + [events[n]])[..|done|] == done;
      }
    }
  }

  /** Event `k` happens, on the channel of socket `fd`: writable, without error or connection to itself, and wanted. */
  predicate HandsOver(events: seq<Event>, k: nat, fd: nat)
    requires k < |events|
  {
    var (done, m) := History(events[..k]);
    m.Some? && CanHappen(m.value, events[k]) && Completes(events[k]) && m.value.channel == Some(fd) && Wanted(done)
  }

  /** The sockets handed over are exactly those that some event of the run found connected while a connection was
      wanted. */
  lemma {:induction false} HandedOverExactly(events: seq<Event>, fd: nat)
    requires History(events).1.Some?
    ensures fd in History(events).1.value.handedOver <==> exists k :: 0 <= k < |events| && HandsOver(events, k, fd)
  {
    if events != [] {
      hide Valid, After, CanHappen, Wanted, Completes, HandsOver;
      var n := |events| - 1;
      var m := History(events[..n]).1;
      HandedOverExactly(events[..n], fd);
      forall k | 0 <= k < n
        ensures HandsOver(events, k, fd) <==> HandsOver(events[..n], k, fd)
      {
        HandsOverBefore(events, k, fd);
      }
      LastHandsOver(events, fd);
    }
  }

  lemma {:induction false} HandsOverBefore(events: seq<Event>, k: nat, fd: nat)
    requires k + 1 < |events|
    ensures HandsOver(events, k, fd) <==> HandsOver(events[..|events| - 1], k, fd)
  {
    assert events[..|events| - 1][..k] == events[..k];
  }

  lemma {:induction false} LastHandsOver(events: seq<Event>, fd: nat)
    requires events != [] && History(events).1.Some?
    ensures var n := |events| - 1;
            && History(events[..n]).1.Some?
            && (fd in History(events).1.value.handedOver <==>
                  fd in History(events[..n]).1.value.handedOver || HandsOver(events, n, fd))
  {
    hide Valid, After, CanHappen, Wanted, Completes;
    var n := |events| - 1;
    var m := History(events[..n]).1;
    RunKeepsValid(events[..n]);
    WantedExactly(events[..n]);
    if CanHappen(m.value, events[n]) {
      HandOverEffect(m.value, events[n], fd);
    }
  }

  lemma {:induction false} HandOverEffect(m: Model, e: Event, fd: nat)
    requires Valid(m) && CanHappen(m, e) && After(m, e).Some?
    ensures fd in After(m, e).value.handedOver <==>
      fd in m.handedOver || (Completes(e) && m.connect && m.channel == Some(fd))
  {
    SocketEffect(m, e);
    ConnectingSocket(m, e);
    hide After, Valid, CanHappen, Completes, Attempts, GivesUp;
  }

  lemma {:induction false} ConnectingSocket(m: Model, e: Event)
    requires Valid(m) && CanHappen(m, e)
    ensures Completes(e) ==> m.channel.Some? && m.channel.value + 1 == m.created
  {
  }

  /** After a stop, and until the next start or restart, nothing is handed over, no socket is created and no timer set. */
  lemma {:induction false} NothingAfterStop(events: seq<Event>, i: nat)
    requires i <= |events| && History(events).1.Some? && History(events[..i]).1.Some?
    requires !Wanted(History(events[..i]).0)
    requires forall k :: i <= k < |events| ==> !events[k].StartCall? && !events[k].RestartCall?
    ensures var m, n := History(events[..i]).1.value, History(events).1.value;
            !n.connect && n.handedOver == m.handedOver && n.created == m.created && n.delays == m.delays
            && n.timers <= m.timers
  {
    hide Valid, After, CanHappen, Wanted, Completes, Fails, Attempts, GivesUp, StatusAfter, QueueAfter;
    if |events| == i {
      assert events[..i] == events;
      WantedExactly(events);
    } else {
      var n := |events| - 1;
      assert events[..n][..i] == events[..i];
      NothingAfterStop(events[..n], i);
      RunKeepsValid(events[..n]);
      var m := History(events[..n]).1.value;
      if CanHappen(m, events[n]) {
        EventEffect(m, events[n]);
        NoAttempt(m, events[n]);
      }
    }
  }

  lemma {:induction false} NoAttempt(m: Model, e: Event)
    requires !m.connect && !e.StartCall? && !e.RestartCall?
    ensures !Attempts(m, e)
  {
  }

  /** The race is real: after a failed attempt the timer is set while the reset is still queued. */
  lemma {:induction false} TimerBeforeReset()
    ensures History([StartCall(true, InProgress), Poll(true, false, true, false), Timer(InProgress)]).1 == None
  {
    var e1, e2, e3 := StartCall(true, InProgress), Poll(true, false, true, false), Timer(InProgress);
    var m1 := INITIAL.(connect := true, started := true, created := 1, status := Connecting, channel := Some(0));
    assert [e1][..0] == [] && [e1, e2][..1] == [e1] && [e1, e2, e3][..2] == [e1, e2];
    assert History([]) == ([], Some(INITIAL));
    assert History([e1]).1 == Some(m1);
    var m2 := Retried(m1.(pending := [ResetChannel]), 0);
    assert m1.pending + [ResetChannel] == [ResetChannel];
    assert History([e1, e2]).1 == Some(m2);
    assert m2.timers == 1 && m2.channel == Some(0) && m2.connect && m2.status == Disconnected;
  }

  // ---------------------------------------------------------------- the object

  /** Methods that pass an assert, or use the channel, return whether that went well; the process ends otherwise. */
  class Connector {
    var status: Status
    var connect: bool
    var channel: Option<nat>
    var retryDelayMs: nat

    var started: bool
    var pending: seq<Functor>
    var timers: nat
    var created: nat
    var closed: seq<nat>
    var handedOver: seq<nat>
    var delays: seq<nat>       // the retry delays since construction or the last restart

    ghost predicate DelayOk()
      reads this
    {
      retryDelayMs == Delay(|delays|)
    }

    ghost function View(): Model
      reads this
    {
      Model(status, connect, channel, started, pending, timers, created, closed, handedOver, delays)
    }

    constructor ()
      ensures DelayOk() && View() == INITIAL
    {
      status, connect, channel, retryDelayMs := Disconnected, false, None, INIT_RETRY_DELAY;
      started, pending, timers, created, closed, handedOver, delays := false, [], 0, 0, [], [], [];
    }

    method Retry(fd: nat)
      requires DelayOk()
      modifies this
      ensures DelayOk() && View() == Retried(old(View()), fd)
    {
      closed := closed + [fd];
      status := Disconnected;
      if connect {
        timers := timers + 1;
        delays := delays + [retryDelayMs];
        retryDelayMs := NextDelay(retryDelayMs);
      }
    }

    /** `connecting`: its assert is that no channel is left over. */
    method BeginConnecting(fd: nat) returns (ok: bool)
      modifies this`status, this`channel
      ensures ok <==> old(channel).None?
      ensures status == Connecting && channel == (if ok then Some(fd) else old(channel))
    {
      status := Connecting;
      if channel.Some? {
        return false;
      }
      channel := Some(fd);
      return true;
    }

    /** `connect`: one new socket; what becomes of it depends on `errno`. */
    method Connect(outcome: Outcome) returns (ok: bool)
      requires DelayOk() && connect && status == Disconnected
      modifies this
      ensures ok <==> Attempted(old(View()), outcome).Some?
      ensures ok ==> DelayOk() && View() == Attempted(old(View()), outcome).value
    {
      var fd := created;
      created := created + 1;
      ok := true;
      match outcome
      case InProgress => ok := BeginConnecting(fd);
      case TryAgain => Retry(fd);
      case Fatal => closed := closed + [fd];
    }

    method RunStartInLoop(outcome: Outcome) returns (ok: bool)
      requires DelayOk()
      modifies this
      ensures ok <==> Attempted(old(View()), outcome).Some?
      ensures ok ==> DelayOk() && View() == Attempted(old(View()), outcome).value
    {
      if status != Disconnected {
        return false;
      }
      ok := true;
      if connect {
        ok := Connect(outcome);
      }
    }

    /** `start`; from another thread the functor is queued. */
    method Start(inLoopThread: bool, outcome: Outcome) returns (ok: bool)
      requires DelayOk() && !started
      modifies this
      ensures ok <==> After(old(View()), StartCall(inLoopThread, outcome)).Some?
      ensures ok ==> DelayOk() && View() == After(old(View()), StartCall(inLoopThread, outcome)).value
    {
      connect, started, ok := true, true, true;
      if inLoopThread {
        ok := RunStartInLoop(outcome);
      } else {
        pending := pending + [StartInLoop];
      }
    }

    method Stop()
      requires DelayOk()
      modifies this
      ensures DelayOk() && Some(View()) == After(old(View()), StopCall)
    {
      connect := false;
      pending := pending + [StopInLoop];
    }

    /** The channel itself is reset by a functor later. */
    method RemoveAndResetChannel() returns (fd: nat)
      requires channel.Some?
      modifies this`pending
      ensures channel == Some(fd) && pending == old(pending) + [ResetChannel]
    {
      fd := channel.value;
      pending := pending + [ResetChannel];
    }

    method RunStopInLoop() returns (ok: bool)
      requires DelayOk()
      modifies this
      ensures ok <==> GivenUp(old(View())).Some?
      ensures ok ==> DelayOk() && View() == GivenUp(old(View())).value
    {
      if status == Connecting {
        status := Disconnected;
        if channel.None? {
          return false;
        }
        var fd := RemoveAndResetChannel();
        Retry(fd);
      }
      return true;
    }

    /** Run the functor at the head of the queue. */
    method RunFunctor(outcome: Outcome) returns (ok: bool)
      requires DelayOk() && pending != []
      modifies this
      ensures ok <==> FunctorRun(old(View()), outcome).Some?
      ensures ok ==> DelayOk() && View() == FunctorRun(old(View()), outcome).value
    {
      var f := pending[0];
      pending := pending[1..];
      ok := true;
      match f
      case StartInLoop => ok := RunStartInLoop(outcome);
      case StopInLoop => ok := RunStopInLoop();
      case ResetChannel => channel := None;
    }

    /** A retry timer fires. */
    method TimerFires(outcome: Outcome) returns (ok: bool)
      requires DelayOk() && timers > 0
      modifies this
      ensures ok <==> After(old(View()), Timer(outcome)).Some?
      ensures ok ==> DelayOk() && View() == After(old(View()), Timer(outcome)).value
    {
      timers := timers - 1;
      ok := RunStartInLoop(outcome);
    }

    method HandleError() returns (ok: bool)
      requires DelayOk()
      modifies this
      ensures ok <==> GivenUp(old(View())).Some?
      ensures ok ==> DelayOk() && View() == GivenUp(old(View())).value
    {
      if status == Connecting {
        if channel.None? {
          return false;
        }
        var fd := RemoveAndResetChannel();
        Retry(fd);
      }
      return true;
    }

    method HandleWrite(socketError: bool, selfConnect: bool) returns (ok: bool)
      requires DelayOk()
      modifies this
      ensures ok <==> Writable(old(View()), socketError, selfConnect).Some?
      ensures ok ==> DelayOk() && View() == Writable(old(View()), socketError, selfConnect).value
    {
      if status == Connecting {
        if channel.None? {
          return false;
        }
        var fd := RemoveAndResetChannel();
        if socketError || selfConnect {
          Retry(fd);
        } else {
          status := Connected;
          if connect {
            handedOver := handedOver + [fd];
          } else {
            closed := closed + [fd];
          }
        }
        return true;
      }
      return status == Disconnected;
    }

    /** One poll event on the channel: the error callback, if due, comes before the write callback. */
    method ChannelEvent(error: bool, write: bool, socketError: bool, selfConnect: bool) returns (ok: bool)
      requires DelayOk() && status == Connecting
      modifies this
      ensures ok <==> After(old(View()), Poll(error, write, socketError, selfConnect)).Some?
      ensures ok ==> DelayOk() && View() == After(old(View()), Poll(error, write, socketError, selfConnect)).value
    {
      ok := true;
      if error {
        ok := HandleError();
      }
      if ok && write {
        ok := HandleWrite(socketError, selfConnect);
      }
    }

    method Restart(outcome: Outcome) returns (ok: bool)
      requires DelayOk() && status == Connected
      modifies this
      ensures ok <==> After(old(View()), RestartCall(outcome)).Some?
      ensures ok ==> DelayOk() && View() == After(old(View()), RestartCall(outcome)).value
    {
      status := Disconnected;
      retryDelayMs, delays := INIT_RETRY_DELAY, [];
      connect := true;
      ok := RunStartInLoop(outcome);
    }

    method IsPossible(e: Event) returns (r: bool)
      ensures r == CanHappen(View(), e)
    {
      match e
      case StartCall(_, _) => return !started;
      case StopCall => return true;
      case Functors(_) => return pending != [];
      case Timer(_) => return timers > 0;
      case Poll(_, _, _, _) => return status == Connecting;
      case RestartCall(_) => return status == Connected;
    }

    method Happen(e: Event) returns (ok: bool)
      requires DelayOk() && CanHappen(View(), e)
      modifies this
      ensures ok <==> After(old(View()), e).Some?
      ensures ok ==> DelayOk() && View() == After(old(View()), e).value
    {
      ok := true;
      match e
      case StartCall(inLoopThread, outcome) => ok := Start(inLoopThread, outcome);
      case StopCall => Stop();
      case Functors(outcome) => ok := RunFunctor(outcome);
      case Timer(outcome) => ok := TimerFires(outcome);
      case Poll(error, write, socketError, selfConnect) => ok := ChannelEvent(error, write, socketError, selfConnect);
      case RestartCall(outcome) => ok := Restart(outcome);
    }
  }

  /** Run the object through the events up to the first failing assert: it has done what `History` says, so the results
      on whole runs are about it. */
  method Run(events: seq<Event>) returns (c: Connector, done: seq<Event>, ok: bool)
    ensures done == History(events).0 && (ok <==> History(events).1.Some?)
    ensures ok ==> c.View() == History(events).1.value && Valid(c.View())
    ensures ok <==> !exists k :: 0 <= k < |events| && RaceAt(events, k)
  {
    hide Valid, After, CanHappen, RaceAt;
    c := new Connector();
    done, ok := [], true;
    for i := 0 to |events|
      invariant fresh(c) && done == History(events[..i]).0 && (ok <==> History(events[..i]).1.Some?)
      invariant ok ==> c.DelayOk() && c.View() == History(events[..i]).1.value
    {
      assert events[..i + 1][..i] == events[..i];
      if ok {
        var possible := c.IsPossible(events[i]);
        if possible {
          ok := c.Happen(events[i]);
          done := done + [events[i]];
        }
      }
    }
    assert events[..|events|] == events;
    RunFailsExactly(events);
    if ok {
      RunKeepsValid(events);
    }
  }
}
