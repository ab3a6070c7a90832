/** The double-buffering protocol of base/AsyncLogging.cc as a state machine.

    Any thread appends inside one critical section; the backend thread goes through the phases of `threadFunc`.
    An owned buffer is an `Option` of its contents, `None` being a moved-from pointer. */
module AsyncLogging {
  import opened Bytes
  import opened LogStream

  type Buffer = seq<byte>
  const LARGE_BUFFER: nat := 4000 * 1000

  /** What goes into the log file, and what a too-long round leaves out of it. */
  datatype Item = Data(bytes: seq<byte>) | Notice(text: seq<byte>) | Lost(bytes: seq<byte>)

  datatype Phase = NotStarted | LoopTop | Waiting | Writing | Refilling | Finished

  datatype State = State(
    running: bool,
    current: Option<Buffer>,
    next: Option<Buffer>,
    buffers: seq<Buffer>,
    phase: Phase,
    new1: Option<Buffer>,
    new2: Option<Buffer>,
    toWrite: seq<Buffer>,
    output: seq<Item>,
    lines: seq<seq<byte>>)

  datatype Step =
    | Append(line: seq<byte>)
    | Start
    | Stop
    | BeginRound                  // test running_, lock, test buffers_
    | Wake                        // leave the timed wait: notified, timed out or spuriously
    | WriteOut(notice: seq<byte>) // drop if too long, write, resize(2)
    | Refill                      // take back the spare buffers

  function Init(): State {
    State(false, Some([]), Some([]), [], NotStarted, None, None, [], [], [])
  }

  predicate Enabled(s: State, step: Step) {
    match step
    case Append(_) => true
    case Start => s.phase.NotStarted?
    case Stop => s.running
    case BeginRound => s.phase.LoopTop?
    case Wake => s.phase.Waiting?
    case WriteOut(_) => s.phase.Writing?
    case Refill => s.phase.Refilling?
  }

  /** Every `assert` the step passes and every pointer it dereferences. */
  predicate Asserts(s: State, step: Step) {
    match step
    case Append(_) => s.current.Some?
    case Start => true
    case Stop => true
    case BeginRound => s.running ==> s.new1 == Some([]) && s.new2 == Some([]) && s.toWrite == [] && s.current.Some?
    case Wake => s.current.Some? && s.new1.Some?
    case WriteOut(_) => s.toWrite != []
    case Refill =>
      && (s.new1.None? ==> s.toWrite != [])
      && (s.new2.None? ==> |s.toWrite| >= (if s.new1.None? then 2 else 1))
  }

  /** The critical section of `threadFunc` after the wait. */
  function Collect(s: State): State
    requires s.current.Some?
  {
    s.(phase := Writing,
       toWrite := s.buffers + [s.current.value],
       buffers := [],
       current := s.new1,
       new1 := None,
       next := if s.next.None? then s.new2 else s.next,
       new2 := if s.next.None? then None else s.new2)
  }

  function AsData(buffers: seq<Buffer>): seq<Item> {
    seq(|buffers|, i requires 0 <= i < |buffers| => Data(buffers[i]))
  }

  function Apply(s: State, step: Step): State
    requires Enabled(s, step) && Asserts(s, step)
  {
    match step
    case Append(line) =>
      var s' := s.(lines := s.lines + [line]);
      var held := s.current.value;
      if LARGE_BUFFER - |held| > |line| then s'.(current := Some(Appended(LARGE_BUFFER, held, line)))
      else
        var spare := if s.next.Some? then s.next.value else [];
        s'.(buffers := s.buffers + [held], next := None, current := Some(Appended(LARGE_BUFFER, spare, line)))
    case Start => s.(running := true, phase := LoopTop, new1 := Some([]), new2 := Some([]))
    case Stop => s.(running := false)
    case BeginRound =>
      if !s.running then s.(phase := Finished)
      else if s.buffers == [] then s.(phase := Waiting)
      else Collect(s)
    case Wake => Collect(s)
    case WriteOut(notice) =>
      var tooLong := |s.toWrite| > 25;
      var kept := if tooLong then s.toWrite[..2] else s.toWrite;
      var head := if tooLong then [Notice(notice)] else [];
      var tail := if tooLong then [Lost(Concat(s.toWrite[2..]))] else [];
      s.(phase := Refilling,
         output := s.output + head + AsData(kept) + tail,
         toWrite := if |kept| > 2 then kept[..2] else kept)
    case Refill =>
      s.(phase := LoopTop,
         new1 := if s.new1.None? then Some([]) else s.new1,
         new2 := if s.new2.None? then Some([]) else s.new2,
         toWrite := [])
  }

  ghost predicate Next(s: State, s': State) {
    exists step :: Enabled(s, step) && Asserts(s, step) && s' == Apply(s, step)
  }

  ghost predicate IsRun(trace: seq<State>) {
    && trace != [] && trace[0] == Init()
    && forall i :: 0 <= i < |trace| - 1 ==> Next(trace[i], trace[i + 1])
  }

  // ---------------------------------------------------------------- recycling

  /** Which buffers exist in which phase: in particular a missing `nextBuffer_` means a filled buffer is queued, so the
      backend always gets back as many buffers as it gave away. */
  predicate RecycleInv(s: State) {
    && s.current.Some?
    && (s.next.Some? ==> s.next.value == [])
    && (s.next.None? ==> s.buffers != [])
    && match s.phase
       case NotStarted => s.toWrite == []
       case LoopTop => s.new1 == Some([]) && s.new2 == Some([]) && s.toWrite == []
       case Waiting => s.new1 == Some([]) && s.new2 == Some([]) && s.toWrite == []
       case Writing => s.new1.None? && s.toWrite != [] && if s.new2.None? then |s.toWrite| >= 2 else s.new2.value == []
       case Refilling => s.new1.None? && s.toWrite != [] && if s.new2.None? then |s.toWrite| >= 2 else s.new2.value == []
       case Finished => true
  }

  lemma RecycleGivesAsserts(s: State, step: Step)
    requires RecycleInv(s) && Enabled(s, step)
    ensures Asserts(s, step)
  {
  }

  lemma StepKeepsRecycle(s: State, step: Step)
    requires RecycleInv(s) && Enabled(s, step) && Asserts(s, step)
    ensures RecycleInv(Apply(s, step))
  {
  }

  // ---------------------------------------------------------------- conservation

  function TextOf(item: Item): seq<byte> {
    match item
    case Data(b) => b
    case Notice(t) => t
    case Lost(_) => []
  }

  function AcceptedOf(item: Item): seq<byte> {
    match item
    case Data(b) => b
    case Notice(_) => []
    case Lost(b) => b
  }

  /** The bytes of the log file. */
  function Text(items: seq<Item>): seq<byte> {
    if items == [] then [] else TextOf(items[0]) + Text(items[1..])
  }

  /** The bytes taken from buffers, written or lost. */
  function Accepted(items: seq<Item>): seq<byte> {
    if items == [] then [] else AcceptedOf(items[0]) + Accepted(items[1..])
  }

  /** `FixedBuffer` keeps a line only if it is shorter than the whole buffer. */
  function Fitting(lines: seq<seq<byte>>): seq<seq<byte>> {
    if lines == [] then []
    else
      var last := lines[|lines| - 1];
      Fitting(lines[..|lines| - 1]) + (if |last| < LARGE_BUFFER then [last] else [])
  }

  function InFlight(s: State): seq<byte> {
    if s.phase.Writing? then Concat(s.toWrite) else []
  }

  function Held(s: State): seq<byte> {
    Concat(s.buffers) + (if s.current.Some? then s.current.value else [])
  }

  /** Written or lost, in flight, queued, current: together exactly the appended lines, in order. */
  predicate ContentInv(s: State) {
    Accepted(s.output) + InFlight(s) + Held(s) == Concat(Fitting(s.lines))
  }

  lemma {:induction false} AcceptedAppend(a: seq<Item>, b: seq<Item>)
    ensures Accepted(a + b) == Accepted(a) + Accepted(b)
  {
    if a == [] {
      assert a + b == b;
    } else {
      assert (a + b)[1..] == a[1..] + b;
      AcceptedAppend(a[1..], b);
    }
  }

  lemma {:induction false} AcceptedData(buffers: seq<Buffer>)
    ensures Accepted(AsData(buffers)) == Concat(buffers)
  {
    if buffers != [] {
      assert AsData(buffers)[1..] == AsData(buffers[1..]);
      AcceptedData(buffers[1..]);
    }
  }

  lemma AcceptedParts(a: seq<Item>, b: seq<Item>, c: seq<Item>, d: seq<Item>)
    ensures Accepted(a + b + c + d) == Accepted(a) + Accepted(b) + Accepted(c) + Accepted(d)
  {
    hide Accepted;
    AcceptedAppend(a + b + c, d);
    AcceptedAppend(a + b, c);
    AcceptedAppend(a, b);
  }

  /** A round takes all its bytes from the buffers, whether it writes or loses them. */
  lemma AcceptedRound(output: seq<Item>, toWrite: seq<Buffer>, notice: seq<byte>)
    requires |toWrite| > 25
    ensures Accepted(output + [Notice(notice)] + AsData(toWrite[..2]) + [Lost(Concat(toWrite[2..]))])
         == Accepted(output) + Concat(toWrite)
  {
    hide Accepted, Concat, AsData;
    var kept, lost := toWrite[..2], toWrite[2..];
    AcceptedParts(output, [Notice(notice)], AsData(kept), [Lost(Concat(lost))]);
    AcceptedOne(Notice(notice));
    AcceptedOne(Lost(Concat(lost)));
    AcceptedData(kept);
    ConcatAppend(kept, lost);
    assert kept + lost == toWrite;
    calc {
      Accepted(output) + [] + Concat(kept) + Concat(lost);
      Accepted(output) + (Concat(kept) + Concat(lost));
      Accepted(output) + Concat(toWrite);
    }
  }

  lemma AcceptedOne(item: Item)
    ensures Accepted([item]) == AcceptedOf(item)
  {
    assert AcceptedOf(item) + [] == AcceptedOf(item);
  }

  /** The bytes of a line that end up in a buffer: all or none. */
  function Kept(line: seq<byte>): seq<byte> {
    if |line| < LARGE_BUFFER then line else []
  }

  lemma AppendHolds(s: State, line: seq<byte>)
    requires RecycleInv(s)
    ensures Held(Apply(s, Append(line))) == Held(s) + Kept(line)
  {
    hide Concat;
    var held := s.current.value;
    if LARGE_BUFFER - |held| > |line| {
      assert Concat(s.buffers) + (held + line) == Concat(s.buffers) + held + line;
    } else {
      ConcatPush(s.buffers, held);
      assert [] + line == line;
    }
  }

  lemma FittingPush(lines: seq<seq<byte>>, line: seq<byte>)
    ensures Concat(Fitting(lines + [line])) == Concat(Fitting(lines)) + Kept(line)
  {
    assert (lines + [line])[..|lines|] == lines;
    if |line| < LARGE_BUFFER {
      ConcatPush(Fitting(lines), line);
    } else {
      assert Fitting(lines + [line]) == Fitting(lines);
      assert Concat(Fitting(lines)) + [] == Concat(Fitting(lines));
    }
  }

  lemma AppendKeepsContent(s: State, line: seq<byte>)
    requires RecycleInv(s) && ContentInv(s)
    ensures ContentInv(Apply(s, Append(line)))
  {
    hide Accepted, Concat, Fitting, Held, Kept;
    var s' := Apply(s, Append(line));
    FittingPush(s.lines, line);
    AppendHolds(s, line);
    calc {
      Accepted(s.output) + InFlight(s) + (Held(s) + Kept(line));
      Accepted(s.output) + InFlight(s) + Held(s) + Kept(line);
    }
  }

  lemma WriteKeepsContent(s: State, notice: seq<byte>)
    requires RecycleInv(s) && ContentInv(s) && s.phase.Writing?
    ensures ContentInv(Apply(s, WriteOut(notice)))
  {
    hide Accepted, Concat, Fitting, AsData;
    var s' := Apply(s, WriteOut(notice));
    assert Held(s') == Held(s);
    if |s.toWrite| > 25 {
      AcceptedRound(s.output, s.toWrite, notice);
    } else {
      assert s'.output == s.output + AsData(s.toWrite);
      AcceptedAppend(s.output, AsData(s.toWrite));
      AcceptedData(s.toWrite);
    }
  }

  lemma StepKeepsContent(s: State, step: Step)
    requires RecycleInv(s) && ContentInv(s) && Enabled(s, step) && Asserts(s, step)
    ensures ContentInv(Apply(s, step))
  {
    match step
    case Append(line) => AppendKeepsContent(s, line);
    case WriteOut(notice) => WriteKeepsContent(s, notice);
    case BeginRound => CollectKeepsContent(s);
    case Wake => CollectKeepsContent(s);
    case _ =>
  }

  lemma CollectKeepsContent(s: State)
    requires RecycleInv(s) && ContentInv(s) && (s.phase.LoopTop? || s.phase.Waiting?) && s.new1 == Some([])
    ensures ContentInv(Collect(s))
  {
    ConcatPush(s.buffers, s.current.value);
  }

  lemma {:induction false} RunKeepsInv(trace: seq<State>, i: nat)
    requires IsRun(trace) && i < |trace|
    ensures RecycleInv(trace[i]) && ContentInv(trace[i])
  {
    if i > 0 {
      RunKeepsInv(trace, i - 1);
      var s := trace[i - 1];
      assert Next(s, trace[i - 1 + 1]);
      var step :| Enabled(s, step) && Asserts(s, step) && trace[i] == Apply(s, step);
      StepKeepsRecycle(s, step);
      StepKeepsContent(s, step);
    }
  }

  // ---------------------------------------------------------------- main results

  /** Recycling never fails: at every point of every run, whatever can happen next meets all its asserts. */
  lemma AssertsHold(trace: seq<State>, i: nat, step: Step)
    requires IsRun(trace) && i < |trace| && Enabled(trace[i], step)
    ensures Asserts(trace[i], step)
  {
    RunKeepsInv(trace, i);
    RecycleGivesAsserts(trace[i], step);
  }

  predicate NothingDropped(items: seq<Item>) {
    forall i :: 0 <= i < |items| ==> items[i].Data?
  }

  lemma {:induction false} TextWithoutDrops(items: seq<Item>)
    requires NothingDropped(items)
    ensures Text(items) == Accepted(items)
  {
    if items != [] {
      TextWithoutDrops(items[1..]);
    }
  }

  /** A round drops something exactly when it has more than 25 buffers, and then it keeps the first two. */
  lemma DropExactly(s: State, notice: seq<byte>)
    requires RecycleInv(s) && s.phase.Writing? && NothingDropped(s.output)
    ensures NothingDropped(Apply(s, WriteOut(notice)).output) <==> |s.toWrite| <= 25
  {
    var s' := Apply(s, WriteOut(notice));
    if |s.toWrite| > 25 {
      assert s'.output[|s.output|] == Notice(notice);
    } else {
      assert s'.output == s.output + AsData(s.toWrite);
    }
  }

  /** No round written out before point `i` of the run had more than 25 buffers. */
  predicate ShortRounds(trace: seq<State>, i: nat)
    requires i < |trace|
  {
    forall j :: 0 <= j < i && trace[j].phase.Writing? && trace[j + 1].phase.Refilling? ==> |trace[j].toWrite| <= 25
  }

  lemma StepDrops(s: State, step: Step)
    requires RecycleInv(s) && Enabled(s, step) && Asserts(s, step)
    ensures var s' := Apply(s, step);
            NothingDropped(s'.output) <==>
            NothingDropped(s.output) && (s.phase.Writing? && s'.phase.Refilling? ==> |s.toWrite| <= 25)
  {
    if step.WriteOut? {
      if NothingDropped(s.output) {
        DropExactly(s, step.notice);
      } else {
        var i :| 0 <= i < |s.output| && !s.output[i].Data?;
        assert Apply(s, step).output[i] == s.output[i];
      }
    }
  }

  /** Over whole runs: the file has lost something exactly when some round had more than 25 buffers. */
  lemma {:induction false} DropsExactlyInLongRounds(trace: seq<State>, i: nat)
    requires IsRun(trace) && i < |trace|
    ensures NothingDropped(trace[i].output) <==> ShortRounds(trace, i)
  {
    hide RecycleInv, ContentInv, NothingDropped, Enabled, Asserts, Apply;
    if i > 0 {
      var s, s' := trace[i - 1], trace[i - 1 + 1];
      DropsExactlyInLongRounds(trace, i - 1);
      RunKeepsInv(trace, i - 1);
      assert Next(s, s');
      var step :| Enabled(s, step) && Asserts(s, step) && s' == Apply(s, step);
      StepDrops(s, step);
      assert ShortRounds(trace, i) <==>
        ShortRounds(trace, i - 1) && (s.phase.Writing? && s'.phase.Refilling? ==> |s.toWrite| <= 25);
    } else {
      NothingWritten(trace[0]);
    }
  }

  lemma NothingWritten(s: State)
    requires s == Init()
    ensures NothingDropped(s.output)
  {
  }

  /** While no round had more than 25 buffers, the file followed by what is in flight, queued and current is the concatenation of
      the appended lines; so the file is always a prefix of it, also after the backend has exited, when exactly the
      unflushed buffers are missing. */
  lemma OutputIsPrefix(trace: seq<State>, i: nat)
    requires IsRun(trace) && i < |trace| && ShortRounds(trace, i)
    ensures var s := trace[i];
            && Text(s.output) + InFlight(s) + Held(s) == Concat(Fitting(s.lines))
            && Text(s.output) <= Concat(Fitting(s.lines))
            && (s.phase.Finished? ==> Text(s.output) + Held(s) == Concat(Fitting(s.lines)))
  {
    RunKeepsInv(trace, i);
    DropsExactlyInLongRounds(trace, i);
    TextWithoutDrops(trace[i].output);
    var s := trace[i];
    assert Text(s.output) + InFlight(s) + Held(s) == Text(s.output) + (InFlight(s) + Held(s));
  }

  /** A round of at most 25 buffers that nobody disturbs puts every line appended so far into the file, leaves nothing
      behind and is ready for the next round. */
  lemma RoundFlushes(s: State, notice: seq<byte>)
    requires RecycleInv(s) && ContentInv(s) && s.phase.Waiting? && NothingDropped(s.output) && |s.buffers| < 25
    ensures var s1 := Apply(Apply(Apply(s, Wake), WriteOut(notice)), Refill);
            && Text(s1.output) == Concat(Fitting(s1.lines)) && s1.lines == s.lines
            && Held(s1) == [] && s1.phase.LoopTop? && NothingDropped(s1.output)
  {
    hide Accepted, Concat, Fitting, Text;
    StepKeepsContent(s, Wake);
    var c := Apply(s, Wake);
    StepKeepsRecycle(s, Wake);
    WriteKeepsContent(c, notice);
    var w := Apply(c, WriteOut(notice));
    DropExactly(c, notice);
    TextWithoutDrops(w.output);
    NothingHeld(w);
    assert Accepted(w.output) + [] + [] == Accepted(w.output);
  }

  lemma NothingHeld(s: State)
    requires s.buffers == [] && s.current == Some([])
    ensures Held(s) == []
  {
  }

  // ---------------------------------------------------------------- what single steps are for

  lemma {:induction false} TextAppend(a: seq<Item>, b: seq<Item>)
    ensures Text(a + b) == Text(a) + Text(b)
  {
    if a == [] {
      assert a + b == b;
    } else {
      assert (a + b)[1..] == a[1..] + b;
      TextAppend(a[1..], b);
    }
  }

  lemma {:induction false} TextOfData(buffers: seq<Buffer>)
    ensures Text(AsData(buffers)) == Concat(buffers)
  {
    if buffers != [] {
      assert AsData(buffers)[1..] == AsData(buffers[1..]);
      TextOfData(buffers[1..]);
    }
  }

  lemma TextOne(item: Item)
    ensures Text([item]) == TextOf(item)
  {
    assert TextOf(item) + [] == TextOf(item);
  }

  /** What a round adds to the file: all its buffers in order, or, if there are more than 25, the notice and the first
      two. */
  lemma {:induction false} RoundWrites(s: State, notice: seq<byte>)
    requires s.phase.Writing? && s.toWrite != []
    ensures Text(Apply(s, WriteOut(notice)).output) ==
      if |s.toWrite| <= 25 then Text(s.output) + Concat(s.toWrite)
      else Text(s.output) + notice + Concat(s.toWrite[..2])
  {
    hide Text, AsData, Concat;
    var s' := Apply(s, WriteOut(notice));
    if |s.toWrite| <= 25 {
      assert s'.output == s.output + AsData(s.toWrite);
      TextAppend(s.output, AsData(s.toWrite));
      TextOfData(s.toWrite);
    } else {
      var kept, lost := s.toWrite[..2], Lost(Concat(s.toWrite[2..]));
      assert s'.output == s.output + [Notice(notice)] + AsData(kept) + [lost];
      TextAppend(s.output + [Notice(notice)] + AsData(kept), [lost]);
      TextAppend(s.output + [Notice(notice)], AsData(kept));
      TextAppend(s.output, [Notice(notice)]);
      TextOne(Notice(notice));
      TextOne(lost);
      TextOfData(kept);
      assert Text(s'.output) == Text(s.output) + notice + Concat(kept) + [];
    }
  }

  /** A line goes into the current buffer if it leaves room there, and otherwise the current buffer, and no other, is
      queued; a line of 4,000,000 bytes or more is not kept at all. */
  lemma AppendQueues(s: State, line: seq<byte>)
    requires RecycleInv(s)
    ensures var s' := Apply(s, Append(line));
            s'.buffers == if |s.current.value| + |line| < 4_000_000 then s.buffers else s.buffers + [s.current.value]
    ensures Kept(line) == if |line| < 4_000_000 then line else []
  {
  }

  /** A round as the backend of a running logger goes through it if nobody disturbs it. */
  function Turn(s: State, notice: seq<byte>): State
    requires RecycleInv(s) && s.phase.LoopTop? && s.running
  {
    var s1 := Apply(s, BeginRound);
    StepKeepsRecycle(s, BeginRound);
    var s2 := if s1.phase.Waiting? then Apply(s1, Wake) else s1;
    Apply(Apply(s2, WriteOut(notice)), Refill)
  }

  /** It waits exactly if nothing is queued, writes out every line appended so far and is ready for the next round. */
  lemma TurnFlushes(s: State, notice: seq<byte>)
    requires RecycleInv(s) && ContentInv(s) && s.phase.LoopTop? && s.running
    requires NothingDropped(s.output) && |s.buffers| < 25
    ensures Apply(s, BeginRound).phase.Waiting? <==> s.buffers == []
    ensures var s' := Turn(s, notice);
            && Text(s'.output) == Concat(Fitting(s.lines)) && s'.lines == s.lines
            && Held(s') == [] && s'.phase.LoopTop? && s'.running && NothingDropped(s'.output)
  {
    hide Accepted, Concat, Fitting, Text;
    StepKeepsRecycle(s, BeginRound);
    StepKeepsContent(s, BeginRound);
    var s1 := Apply(s, BeginRound);
    if s1.phase.Waiting? {
      RoundFlushes(s1, notice);
    } else {
      WriteKeepsContent(s1, notice);
      var w := Apply(s1, WriteOut(notice));
      DropExactly(s1, notice);
      TextWithoutDrops(w.output);
      NothingHeld(w);
      assert Accepted(w.output) + [] + [] == Accepted(w.output);
    }
  }

  function Owned(buffer: Option<Buffer>): nat {
    if buffer.Some? then 1 else 0
  }

  /** The buffers in existence. */
  function Count(s: State): nat {
    Owned(s.current) + Owned(s.next) + Owned(s.new1) + Owned(s.new2) + |s.buffers| + |s.toWrite|
  }

  /** Buffers are moved, not copied: an append allocates one only if the spare is gone, the backend never does after its
      start, and of a round it keeps at most two, from which it takes back its spares. */
  lemma BuffersAreMoved(s: State, step: Step)
    requires RecycleInv(s) && Enabled(s, step)
    ensures Asserts(s, step)
    ensures var s' := Apply(s, step);
            match step
            case Append(line) =>
              Count(s') == Count(s) + (if |s.current.value| + |line| >= 4_000_000 && s.next.None? then 1 else 0)
            case WriteOut(_) =>
              |s'.toWrite| <= 2 && |s'.toWrite| <= |s.toWrite| && Count(s') == Count(s) - |s.toWrite| + |s'.toWrite|
            case Refill => Count(s') <= Count(s) && s'.new1.Some? && s'.new2.Some? && s'.toWrite == []
            case Stop => Count(s') == Count(s)
            case BeginRound => Count(s') == Count(s)
            case Wake => Count(s') == Count(s)
            case Start => s'.new1 == Some([]) && s'.new2 == Some([])
  {
  }

  // ---------------------------------------------------------------- stop() comes to an end

  /** How many steps the backend has left once the logger is stopped. */
  function BackendLeft(phase: Phase): nat {
    match phase
    case Finished => 0
    case LoopTop => 1
    case Refilling => 2
    case Writing => 3
    case Waiting => 4
    case NotStarted => 5
  }

  predicate IsBackendStep(step: Step) {
    step.BeginRound? || step.Wake? || step.WriteOut? || step.Refill?
  }

  /** Whether the backend may be where it is: not running before it is started, and still at work while running. */
  predicate RunningInv(s: State) {
    s.running ==> !s.phase.NotStarted? && !s.phase.Finished?
  }

  lemma StepKeepsRunning(s: State, step: Step)
    requires RunningInv(s) && Enabled(s, step) && Asserts(s, step)
    ensures var s' := Apply(s, step);
            RunningInv(s') && s'.running == (step.Start? || (s.running && !step.Stop?))
  {
  }

  /** In every run the backend does not exit while the logger runs. */
  lemma {:induction false} NoEarlyExit(trace: seq<State>, i: nat)
    requires IsRun(trace) && i < |trace|
    ensures trace[i].running ==> !trace[i].phase.NotStarted? && !trace[i].phase.Finished?
  {
    hide Enabled, Asserts, Apply;
    if i > 0 {
      NoEarlyExit(trace, i - 1);
      var s, s' := trace[i - 1], trace[i - 1 + 1];
      assert Next(s, s');
      var step :| Enabled(s, step) && Asserts(s, step) && s' == Apply(s, step);
      StepKeepsRunning(s, step);
    }
  }

  /** The join of `stop()` ends: each step of the backend brings it nearer to its exit, no append takes it back, and until
      it has exited it can take its next step with all asserts met. */
  lemma StopEndsBackend(s: State, step: Step)
    requires RecycleInv(s) && !s.running && !s.phase.NotStarted? && Enabled(s, step)
    ensures Asserts(s, step)
    ensures var s' := Apply(s, step);
            && !s'.running && !s'.phase.NotStarted?
            && BackendLeft(s'.phase) == BackendLeft(s.phase) - (if IsBackendStep(step) then 1 else 0)
    ensures !s.phase.Finished? ==>
      Enabled(s, BeginRound) || Enabled(s, Wake) || Enabled(s, WriteOut([])) || Enabled(s, Refill)
  {
  }
}
