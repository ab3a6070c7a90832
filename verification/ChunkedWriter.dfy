/** `write_content_chunked` of FileServer/httplib.h with the identity compressor: a content provider is called until the
    sink says that no data is available. */
module ChunkedWriter {
  import opened Bytes
  import opened Chunked

  /** What a provider does to the sink. */
  datatype Action = Write(data: seq<byte>) | Done

  /** One call of the provider: what it does, and whether it returns true. */
  datatype Call = Call(actions: seq<Action>, ok: bool)

  // ---------------------------------------------------------------- what the loop does

  /** `data_available` after the actions. */
  predicate Available(actions: seq<Action>, before: bool) {
    if actions == [] then before
    else
      var last := actions[|actions| - 1];
      last.Write? && last.data != []
  }

  /** The bytes the actions send. */
  function Emitted(actions: seq<Action>): seq<byte> {
    if actions == [] then []
    else
      (match actions[0]
       case Write(data) => if data == [] then [] else HexChunk(data)
       case Done => LAST)
      + Emitted(actions[1..])
  }

  /** The actions of the calls that take place; the server shuts down after the last of `calls`. */
  function Executed(calls: seq<Call>, available: bool): seq<Action> {
    if calls == [] || !available then []
    else if !calls[0].ok then calls[0].actions
    else calls[0].actions + Executed(calls[1..], Available(calls[0].actions, available))
  }

  /** No call that takes place is cancelled. */
  predicate Succeeds(calls: seq<Call>, available: bool) {
    calls == [] || !available
    || (calls[0].ok && Succeeds(calls[1..], Available(calls[0].actions, available)))
  }

  lemma {:induction false} EmittedPush(actions: seq<Action>, a: Action)
    ensures Emitted(actions + [a]) == Emitted(actions) + Emitted([a])
  {
    hide HexChunk;
    if actions == [] {
      assert actions + [a] == [a];
    } else {
      assert (actions + [a])[1..] == actions[1..] + [a];
      EmittedPush(actions[1..], a);
    }
  }

  lemma {:induction false} EmittedOne(a: Action)
    ensures Emitted([a]) == match a case Write(data) => (if data == [] then [] else HexChunk(data)) case Done => LAST
  {
    hide HexChunk;
    assert [a][1..] == [];
  }

  /** One call of the provider: its actions through the sink's callbacks. */
  method CallProvider(actions: seq<Action>, before: bool) returns (sent: seq<byte>, available: bool)
    ensures sent == Emitted(actions) && available == Available(actions, before)
  {
    hide HexChunk, Emitted;
    sent, available := [], before;
    EmittedNothing();
    for i := 0 to |actions|
      invariant sent == Emitted(actions[..i]) && available == Available(actions[..i], before)
    {
      assert actions[..i + 1] == actions[..i] + [actions[i]];
      EmittedPush(actions[..i], actions[i]);
      EmittedOne(actions[i]);
      match actions[i]
      case Write(data) =>
        available := |data| > 0;
        if data != [] {
          var chunk := WriteChunk(data);
          sent := sent + chunk;
        }
      case Done =>
        available := false;
        sent := sent + LAST;
    }
    assert actions[..|actions|] == actions;
  }

  method WriteContentChunked(calls: seq<Call>) returns (output: seq<byte>, ok: bool)
    ensures output == Emitted(Executed(calls, true)) && ok == Succeeds(calls, true)
  {
    hide Emitted, Available;
    output := [];
    var available, i := true, 0;
    assert calls[0..] == calls && [] + Emitted(Executed(calls, true)) == Emitted(Executed(calls, true));
    while available && i < |calls|
      invariant 0 <= i <= |calls|
      invariant output + Emitted(Executed(calls[i..], available)) == Emitted(Executed(calls, true))
      invariant Succeeds(calls[i..], available) == Succeeds(calls, true)
    {
      assert calls[i..][1..] == calls[i + 1..];
      var sent;
      ghost var rest := Executed(calls[i + 1..], Available(calls[i].actions, available));
      EmittedAppend(calls[i].actions, rest);
      sent, available := CallProvider(calls[i].actions, available);
      assert output + (sent + Emitted(rest)) == output + sent + Emitted(rest);
      output := output + sent;
      if !calls[i].ok {
        return output, false;
      }
      i := i + 1;
    }
    EmittedNothing();
    return output, true;
  }

  lemma {:induction false} EmittedNothing()
    ensures Emitted([]) == []
  {
  }

  lemma {:induction false} EmittedAppend(a: seq<Action>, b: seq<Action>)
    ensures Emitted(a + b) == Emitted(a) + Emitted(b)
  {
    hide HexChunk;
    if a == [] {
      assert a + b == b;
    } else {
      assert (a + b)[1..] == a[1..] + b;
      EmittedAppend(a[1..], b);
    }
  }

  // ---------------------------------------------------------------- what a reader makes of it

  predicate HasDone(actions: seq<Action>) {
    exists i :: 0 <= i < |actions| && actions[i].Done?
  }

  /** The data written before the end is reported. */
  function BeforeDone(actions: seq<Action>): seq<byte> {
    if actions == [] || actions[0].Done? then [] else actions[0].data + BeforeDone(actions[1..])
  }

  predicate Sendable(actions: seq<Action>) {
    forall i :: 0 <= i < |actions| && actions[i].Write? ==> |actions[i].data| < ULONG_MAX
  }

  lemma {:induction false} FirstAction(actions: seq<Action>)
    requires actions != []
    ensures HasDone(actions) <==> actions[0].Done? || HasDone(actions[1..])
  {
    var rest := actions[1..];
    if i :| 0 <= i < |actions| && actions[i].Done? {
      assert i > 0 ==> rest[i - 1].Done?;
    }
    if i :| 0 <= i < |rest| && rest[i].Done? {
      assert actions[i + 1].Done?;
    }
  }

  /** What was sent decodes to the data written before the first `done`, and to nothing without one. */
  lemma {:induction false} EmittedDecodes(input: seq<byte>, pos: nat, actions: seq<Action>)
    requires Sendable(actions) && At(input, pos, Emitted(actions)) && pos + |Emitted(actions)| == |input|
    ensures Decode(input, pos) == if HasDone(actions) then Some(BeforeDone(actions)) else None
    decreases |actions|
  {
    hide HexChunk, Decode, At, HasDone;
    if actions == [] {
      NoneDone();
      DecodeNothing(input);
    } else {
      FirstAction(actions);
      var a, rest := actions[0], actions[1..];
      EmittedOne(a);
      assert [a] + rest == actions;
      EmittedAppend([a], rest);
      AtSplit(input, pos, Emitted([a]), Emitted(rest));
      if a.Done? {
        DecodeLast(input, pos);
      } else {
        EmittedDecodes(input, pos + |Emitted([a])|, rest);
        if a.data != [] {
          DecodeHexChunk(input, pos, a.data);
        } else {
          assert [] + BeforeDone(rest) == BeforeDone(rest);
        }
      }
    }
  }

  // ---------------------------------------------------------------- when everything arrives

  /** What the provider has to say over all its calls. */
  function AllActions(calls: seq<Call>): seq<Action> {
    if calls == [] then [] else calls[0].actions + AllActions(calls[1..])
  }

  /** The call ends with an empty write, which the loop takes for the end of the data. */
  predicate EndsEmpty(call: Call) {
    call.actions != [] && call.actions[|call.actions| - 1] == Write([])
  }

  /** Some call reports the end, and no earlier one ends with an empty write or is cancelled. */
  predicate Completes(calls: seq<Call>) {
    exists k :: 0 <= k < |calls| && CompletesAt(calls, k)
  }

  predicate CompletesAt(calls: seq<Call>, k: nat)
    requires k < |calls|
  {
    HasDone(calls[k].actions) && forall j :: 0 <= j < k ==> calls[j].ok && !EndsEmpty(calls[j])
  }

  lemma {:induction false} CompletesStep(calls: seq<Call>)
    requires calls != []
    ensures Completes(calls) <==>
      HasDone(calls[0].actions) || (calls[0].ok && !EndsEmpty(calls[0]) && Completes(calls[1..]))
  {
    hide HasDone, EndsEmpty;
    var rest := calls[1..];
    if k :| 0 <= k < |calls| && CompletesAt(calls, k) {
      if k > 0 {
        assert CompletesAt(rest, k - 1);
      }
    }
    if HasDone(calls[0].actions) {
      assert CompletesAt(calls, 0);
    } else if calls[0].ok && !EndsEmpty(calls[0]) && Completes(rest) {
      var k :| 0 <= k < |rest| && CompletesAt(rest, k);
      forall j | 0 <= j < k + 1
        ensures calls[j].ok && !EndsEmpty(calls[j])
      {
        assert j > 0 ==> calls[j] == rest[j - 1];
      }
      assert CompletesAt(calls, k + 1);
    }
  }

  lemma {:induction false} DoneInEither(a: seq<Action>, b: seq<Action>)
    ensures HasDone(a + b) <==> HasDone(a) || HasDone(b)
    ensures HasDone(a) ==> BeforeDone(a + b) == BeforeDone(a)
    ensures !HasDone(a) ==> BeforeDone(a + b) == BeforeDone(a) + BeforeDone(b)
  {
    hide HasDone;
    if a == [] {
      NoneDone();
      assert a + b == b && BeforeDone(a) == [];
    } else {
      var f, rest, all := a[0], a[1..], a + b;
      FirstAction(a);
      FirstAction(all);
      assert all[0] == f && all[1..] == rest + b;
      DoneInEither(rest, b);
      BeforeStep(a);
      BeforeStep(all);
      hide BeforeDone;
      if f.Write? && !HasDone(rest) {
        assert f.data + (BeforeDone(rest) + BeforeDone(b)) == f.data + BeforeDone(rest) + BeforeDone(b);
      }
    }
  }

  lemma {:induction false} BeforeStep(a: seq<Action>)
    requires a != []
    ensures a[0].Done? ==> BeforeDone(a) == []
    ensures a[0].Write? ==> BeforeDone(a) == a[0].data + BeforeDone(a[1..])
  {
  }

  /** The end is reached exactly when the calls complete, and then nothing written before it was skipped. */
  lemma {:induction false} ExecutedDone(calls: seq<Call>)
    ensures HasDone(Executed(calls, true)) <==> Completes(calls)
    ensures Completes(calls) ==> BeforeDone(Executed(calls, true)) == BeforeDone(AllActions(calls))
  {
    if calls != [] {
      var first, rest := calls[0], calls[1..];
      CompletesStep(calls);
      ExecutedDone(rest);
      hide HasDone, Completes;
      DoneInEither(first.actions, AllActions(rest));
      var goesOn := Available(first.actions, true);
      DoneInEither(first.actions, Executed(rest, goesOn));
      if !HasDone(first.actions) {
        LastNotDone(first.actions);
        assert goesOn <==> !EndsEmpty(first);
        NoneDone();
      }
    }
  }

  lemma {:induction false} LastNotDone(actions: seq<Action>)
    requires !HasDone(actions)
    ensures actions != [] ==> actions[|actions| - 1].Write?
  {
  }

  lemma {:induction false} NoneDone()
    ensures !HasDone([])
  {
  }

  lemma {:induction false} ExecutedSendable(calls: seq<Call>, available: bool)
    requires forall k :: 0 <= k < |calls| ==> Sendable(calls[k].actions)
    ensures Sendable(Executed(calls, available))
  {
    if calls != [] && available {
      ExecutedSendable(calls[1..], Available(calls[0].actions, available));
    }
  }

  /** What the writer sends decodes to all the data in front of the end exactly when some call reports the end and no
      earlier one ends with an empty write or is cancelled; otherwise the reader fails. */
  lemma {:induction false} ProviderExactly(calls: seq<Call>)
    requires forall k :: 0 <= k < |calls| ==> Sendable(calls[k].actions)
    ensures var wire := Emitted(Executed(calls, true));
            Decode(wire, 0) == if Completes(calls) then Some(BeforeDone(AllActions(calls))) else None
  {
    hide Decode, Emitted, HasDone, Completes, BeforeDone;
    ExecutedDone(calls);
    ExecutedSendable(calls, true);
    var actions := Executed(calls, true);
    var wire := Emitted(actions);
    assert At(wire, 0, wire);
    EmittedDecodes(wire, 0, actions);
  }

  /** Write, send and read, for any provider and any way the stream delivers its bytes. */
  method Transfer(calls: seq<Call>) returns (ok: bool, body: Option<seq<byte>>)
    requires forall k :: 0 <= k < |calls| ==> Sendable(calls[k].actions)
    ensures body == if Completes(calls) then Some(BeforeDone(AllActions(calls))) else None
    ensures ok == Succeeds(calls, true)
  {
    hide Decode, Emitted, Completes, BeforeDone, Succeeds;
    var wire;
    wire, ok := WriteContentChunked(calls);
    var strm := new Stream(wire);
    body := ReadContentChunked(strm);
    ProviderExactly(calls);
  }

  /** A provider with nothing to send yet: the writer reports success, and the reader gets neither data nor an end. */
  lemma {:induction false} EmptyWriteEndsTheBody(data: seq<byte>)
    ensures var calls := [Call([Write([])], true), Call([Write(data), Done], true)];
            Succeeds(calls, true) && Emitted(Executed(calls, true)) == [] && Decode([], 0) == None
            && BeforeDone(AllActions(calls)) == data
  {
    var first, second := Call([Write([])], true), Call([Write(data), Done], true);
    var calls := [first, second];
    assert calls[1..] == [second] && [second][1..] == [];
    assert Executed(calls, true) == [Write([])];
    EmittedOne(Write([]));
    assert AllActions([second]) == second.actions + [] == second.actions;
    assert AllActions(calls) == [Write([]), Write(data), Done];
    assert [Write([]), Write(data), Done][1..] == [Write(data), Done] && [Write(data), Done][1..] == [Done];
    assert BeforeDone([Write(data), Done]) == data + BeforeDone([Done]) == data + [] == data;
    assert BeforeDone(AllActions(calls)) == [] + BeforeDone([Write(data), Done]);
  }

  // ---------------------------------------------------------------- when the loop ends

  /** The loop ends with the call that ends with `done`: nothing of the later calls takes place. */
  lemma {:induction false} DoneEndsTheLoop(calls: seq<Call>, k: nat)
    requires k < |calls| && calls[k].actions != [] && calls[k].actions[|calls[k].actions| - 1].Done?
    requires forall j :: 0 <= j < k ==> calls[j].ok && !EndsEmpty(calls[j]) && !HasDone(calls[j].actions)
    ensures Executed(calls, true) == AllActions(calls[..k + 1]) && Succeeds(calls, true) == calls[k].ok
    decreases k
  {
    hide HasDone, EndsEmpty;
    var first, rest := calls[0], calls[1..];
    if k == 0 {
      assert calls[..1] == [first] && AllActions([first]) == first.actions + AllActions([first][1..]);
      assert [first][1..] == [] && first.actions + [] == first.actions;
    } else {
      assert calls[..k + 1][0] == first && calls[..k + 1][1..] == rest[..k];
      assert forall j :: 0 <= j < k - 1 ==> rest[j] == calls[j + 1];
      DoneEndsTheLoop(rest, k - 1);
      LastNotDone(first.actions);
      LastNotEmpty(first);
    }
  }

  lemma {:induction false} LastNotEmpty(call: Call)
    ensures !EndsEmpty(call) && call.actions != [] && call.actions[|call.actions| - 1].Write? ==>
      call.actions[|call.actions| - 1].data != []
  {
  }

  function Pieces(actions: seq<Action>): seq<seq<byte>> {
    if actions == [] then []
    else (if actions[0].Write? then [actions[0].data] else []) + Pieces(actions[1..])
  }

  /** Writes followed by one `done` are the chunks of the pieces and the last chunk, and nothing else. */
  lemma {:induction false} WritesThenDone(writes: seq<Action>)
    requires forall i :: 0 <= i < |writes| ==> writes[i].Write?
    ensures Emitted(writes + [Done]) == HexStream(Pieces(writes))
  {
    hide HexChunk;
    var all := writes + [Done];
    if writes == [] {
      assert all == [Done];
      EmittedOne(Done);
    } else {
      var a, rest := writes[0], writes[1..];
      assert all[0] == a && all[1..] == rest + [Done];
      WritesThenDone(rest);
      assert Pieces(writes)[0] == a.data && Pieces(writes)[1..] == Pieces(rest);
      if a.data == [] {
        assert [] + HexStream(Pieces(rest)) == HexStream(Pieces(rest));
      }
    }
  }

  /** A provider that returns false in time has the writer report failure. */
  lemma {:induction false} CancelIsReported(calls: seq<Call>, k: nat)
    requires k < |calls| && !calls[k].ok
    requires forall j :: 0 <= j < k ==> calls[j].ok && !EndsEmpty(calls[j]) && !HasDone(calls[j].actions)
    ensures !Succeeds(calls, true)
    decreases k
  {
    hide HasDone, EndsEmpty;
    if k > 0 {
      assert forall j :: 0 <= j < k - 1 ==> calls[1..][j] == calls[j + 1];
      CancelIsReported(calls[1..], k - 1);
      LastNotDone(calls[0].actions);
      LastNotEmpty(calls[0]);
    }
  }
}
