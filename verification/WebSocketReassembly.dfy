/** Properties of whole runs of the data processor, and the round trip from the sender to the receiver. */
module WebSocketReassembly {
  import opened Sequences
  import opened WebSocketProtocol
  import opened WebSocketFrames
  import opened WebSocketWriter
  import opened WebSocketDataProcessor

  datatype Run = Run(state: State, events: seq<Event>)

  /** Handles the frames one after the other, in however many calls of `process` they arrive. */
  function RunFrames(codec: Codec, st: State, fs: seq<FrameData>): Run
    decreases |fs|
  {
    if fs == [] then Run(st, [])
    else
      var step := FrameStep(codec, st, fs[0]);
      var run := RunFrames(codec, step.state, fs[1..]);
      Run(run.state, step.events + run.events)
  }

  lemma {:induction false} RunFramesConcat(codec: Codec, st: State, a: seq<FrameData>, b: seq<FrameData>)
    ensures var first := RunFrames(codec, st, a); var second := RunFrames(codec, first.state, b);
      RunFrames(codec, st, a + b) == Run(second.state, first.events + second.events)
    decreases |a|
  {
    hide FrameStep;
    if a == [] {
      assert a + b == b;
      assert [] + RunFrames(codec, st, b).events == RunFrames(codec, st, b).events;
    } else {
      assert (a + b)[1..] == a[1..] + b;
      RunFramesConcat(codec, FrameStep(codec, st, a[0]).state, a[1..], b);
    }
  }

  // ---------- Any number of calls ----------

  /** All frames of a stream, up to the read that times out. */
  function ReadAll(s: seq<byte>): (fs: seq<FrameData>)
    ensures |fs| > 0
    decreases |s|
  {
    var o := ParseFrame(s);
    if o.frame.closeReason == ReadTimeout then [o.frame] else [o.frame] + ReadAll(o.rest)
  }

  /** `calls` calls of `process`, fewer if a read times out. */
  function Calls(codec: Codec, st: State, s: seq<byte>, calls: nat): Processed
    decreases calls
  {
    if calls == 0 then Processed(st, [], s, false)
    else
      var p := ProcessSpec(codec, st, s);
      if p.timedOut then p
      else
        var q := Calls(codec, p.state, p.rest, calls - 1);
        q.(events := p.events + q.events)
  }

  /** `p` is what results from handling the first `k` frames of `s`. */
  ghost predicate HandledFrames(codec: Codec, st: State, s: seq<byte>, p: Processed, k: nat) {
    var fs := ReadAll(s);
    && k <= |fs|
    && RunFrames(codec, st, fs[..k]) == Run(p.state, p.events)
    && (if p.timedOut then k == |fs| else k < |fs| && ReadAll(p.rest) == fs[k..])
  }

  lemma {:induction false} OneCallHandlesFrames(codec: Codec, st: State, s: seq<byte>) returns (k: nat)
    ensures k >= 1 && HandledFrames(codec, st, s, ProcessSpec(codec, st, s), k)
    decreases |s|
  {
    hide ParseFrame, FrameStep;
    var fs := ReadAll(s);
    var o := ParseFrame(s);
    var step := FrameStep(codec, st, o.frame);
    ProcessSpecStep(codec, st, s);
    if step.done {
      k := 1;
      assert fs[..1] == [o.frame];
      SingleFrameRun(codec, st, o.frame);
      assert o.frame.closeReason != ReadTimeout ==> ReadAll(o.rest) == fs[1..];
    } else {
      var k' := OneCallHandlesFrames(codec, step.state, o.rest);
      k := k' + 1;
      assert fs == [o.frame] + ReadAll(o.rest);
      assert fs[..k] == [o.frame] + ReadAll(o.rest)[..k'];
      assert fs[k..] == ReadAll(o.rest)[k'..];
    }
  }

  lemma SingleFrameRun(codec: Codec, st: State, f: FrameData)
    ensures RunFrames(codec, st, [f]) == Run(FrameStep(codec, st, f).state, FrameStep(codec, st, f).events)
  {
    var step := FrameStep(codec, st, f);
    assert [f][1..] == [];
    assert step.events + [] == step.events;
  }

  /**
   However many calls of `process` read the stream, what they emit is the run over the frames of the stream:
   `n` calls handle at least the first `n` frames, and nothing is lost or seen twice between calls.
   */
  lemma {:induction false} CallsHandleFrames(codec: Codec, st: State, s: seq<byte>, calls: nat) returns (k: nat)
    ensures HandledFrames(codec, st, s, Calls(codec, st, s, calls), k)
    ensures k >= calls || k == |ReadAll(s)|
    decreases calls
  {
    hide ProcessSpec, ReadAll;
    var fs := ReadAll(s);
    if calls == 0 {
      k := 0;
      assert fs[..0] == [] && fs[0..] == fs;
    } else {
      var p := ProcessSpec(codec, st, s);
      var k1 := OneCallHandlesFrames(codec, st, s);
      if p.timedOut {
        k := k1;
      } else {
        var k2 := CallsHandleFrames(codec, p.state, p.rest, calls - 1);
        k := k1 + k2;
        RunFramesConcat(codec, st, fs[..k1], fs[k1..][..k2]);
        SliceOfSuffix(fs, k1, k2);
      }
    }
  }

  // ---------- The buffers in every run ----------

  /** In every run over the frames of a stream the buffers fit the message that is arriving. */
  lemma {:induction false} RunKeepsValid(codec: Codec, st: State, s: seq<byte>, k: nat)
    requires st.Valid() && k <= |ReadAll(s)|
    ensures RunFrames(codec, st, ReadAll(s)[..k]).state.Valid()
    decreases k
  {
    hide ParseFrame, FrameStep, State.Valid;
    if k > 0 {
      var o, fs := ParseFrame(s), ReadAll(s);
      ValidFrameIsKnown(s);
      FrameStepKeepsValid(codec, st, o.frame);
      if k > 1 {
        assert fs[..k][1..] == ReadAll(o.rest)[..k - 1];
        RunKeepsValid(codec, FrameStep(codec, st, o.frame).state, o.rest, k - 1);
      } else {
        assert fs[..k] == [o.frame];
        SingleFrameRun(codec, st, o.frame);
      }
    }
  }

  lemma {:induction false} CallsKeepValid(codec: Codec, st: State, s: seq<byte>, calls: nat)
    requires st.Valid()
    ensures Calls(codec, st, s, calls).state.Valid()
    decreases calls
  {
    hide ProcessSpec, State.Valid;
    if calls > 0 {
      var p := ProcessSpec(codec, st, s);
      ProcessKeepsValid(codec, st, s);
      if !p.timedOut {
        CallsKeepValid(codec, p.state, p.rest, calls - 1);
      }
    }
  }

  // ---------- Control frames never change a message ----------

  function DataFrames(fs: seq<FrameData>): seq<FrameData> {
    if fs == [] then []
    else (if fs[0].valid && fs[0].IsControl() then [] else [fs[0]]) + DataFrames(fs[1..])
  }

  function MessageEvents(es: seq<Event>): seq<Event> {
    if es == [] then []
    else (if es[0].FromControlFrame() then [] else [es[0]]) + MessageEvents(es[1..])
  }

  lemma {:induction false} MessageEventsConcat(a: seq<Event>, b: seq<Event>)
    ensures MessageEvents(a + b) == MessageEvents(a) + MessageEvents(b)
  {
    if a == [] {
      assert a + b == b;
    } else {
      assert (a + b)[1..] == a[1..] + b;
      MessageEventsConcat(a[1..], b);
    }
  }

  lemma {:induction false} NoControlEvents(es: seq<Event>)
    requires forall i :: 0 <= i < |es| ==> !es[i].FromControlFrame()
    ensures MessageEvents(es) == es
  {
    if es != [] {
      NoControlEvents(es[1..]);
    }
  }

  /** With or without the control frames in between, the same messages, data frames and errors are emitted. */
  lemma {:induction false} ControlFramesDoNotInterfere(codec: Codec, st: State, fs: seq<FrameData>)
    ensures RunFrames(codec, st, DataFrames(fs)).state == RunFrames(codec, st, fs).state
    ensures RunFrames(codec, st, DataFrames(fs)).events == MessageEvents(RunFrames(codec, st, fs).events)
    decreases |fs|
  {
    hide DataStep, ControlStep;
    if fs != [] {
      var f := fs[0];
      var step := FrameStep(codec, st, f);
      var later := RunFrames(codec, step.state, fs[1..]);
      ControlFramesDoNotInterfere(codec, step.state, fs[1..]);
      MessageEventsConcat(step.events, later.events);
      if f.valid && f.IsControl() {
        ControlStepEvents(codec, st, f);
        assert DataFrames(fs) == DataFrames(fs[1..]);
      } else {
        DataStepEvents(codec, st, f);
        NoControlEvents(step.events);
        assert DataFrames(fs)[1..] == DataFrames(fs[1..]);
      }
    }
  }

  lemma ControlStepEvents(codec: Codec, st: State, f: FrameData)
    requires f.IsControl()
    ensures ControlStep(codec, st, f).state == st && MessageEvents(ControlStep(codec, st, f).events) == []
  {
  }

  lemma DataStepEvents(codec: Codec, st: State, f: FrameData)
    ensures forall e :: e in DataStep(codec, st, f).events ==> !e.FromControlFrame()
  {
  }

  // ---------- Error 1002 fires exactly at the first frame out of sequence ----------

  predicate IsData(f: FrameData) {
    f.valid && !f.IsControl()
  }

  /** Some data frame before the end left its message open: the last data frame of `fs` is not final. */
  predicate MessageOpen(fs: seq<FrameData>) {
    exists j :: 0 <= j < |fs| && IsData(fs[j]) && !fs[j].fin && forall k :: j < k < |fs| ==> !IsData(fs[k])
  }

  predicate NoErrors(es: seq<Event>) {
    forall e :: e in es ==> !e.Error?
  }

  /** As long as nothing went wrong, the processor is inside a message exactly when the frames left one open. */
  lemma {:induction false} FragmentedMeansOpen(codec: Codec, fs: seq<FrameData>)
    requires NoErrors(RunFrames(codec, IDLE, fs).events)
    ensures RunFrames(codec, IDLE, fs).state.fragmented == MessageOpen(fs)
    ensures forall f :: f in fs ==> f.valid
  {
    hide FrameStep;
    if fs != [] {
      var init, f := fs[..|fs| - 1], fs[|fs| - 1];
      assert fs == init + [f];
      RunFramesConcat(codec, IDLE, init, [f]);
      var st := RunFrames(codec, IDLE, init).state;
      SingleFrameRun(codec, st, f);
      forall e | e in RunFrames(codec, IDLE, init).events
        ensures !e.Error?
      {
        assert e in RunFrames(codec, IDLE, fs).events;
      }
      FragmentedMeansOpen(codec, init);
      assert forall e :: e in FrameStep(codec, st, f).events ==> e in RunFrames(codec, IDLE, fs).events;
      FragmentedAfter(codec, st, f);
      OpenAfter(init, f);
    }
  }

  lemma FragmentedAfter(codec: Codec, st: State, f: FrameData)
    requires NoErrors(FrameStep(codec, st, f).events)
    ensures f.valid
    ensures FrameStep(codec, st, f).state.fragmented == if IsData(f) then !f.fin else st.fragmented
  {
    var events := FrameStep(codec, st, f).events;
    if f.valid {
      assert events != [] ==> !events[0].Error?;
    } else {
      InvalidFrameIsError(codec, st, f);
      assert false;
    }
  }

  lemma InvalidFrameIsError(codec: Codec, st: State, f: FrameData)
    requires !f.valid
    ensures !NoErrors(FrameStep(codec, st, f).events)
  {
    assert Error(f.closeCode, f.closeReason) in FrameStep(codec, st, f).events;
  }

  lemma OpenAfter(init: seq<FrameData>, f: FrameData)
    ensures MessageOpen(init + [f]) == if IsData(f) then !f.fin else MessageOpen(init)
  {
    var fs := init + [f];
    assert fs[|init|] == f;
    if !IsData(f) {
      if MessageOpen(init) {
        var j :| 0 <= j < |init| && IsData(init[j]) && !init[j].fin && forall k :: j < k < |init| ==> !IsData(init[k]);
        assert IsData(fs[j]) && !fs[j].fin;
        assert forall k :: j < k < |fs| ==> !IsData(fs[k]);
      }
      if MessageOpen(fs) {
        var j :| 0 <= j < |fs| && IsData(fs[j]) && !fs[j].fin && forall k :: j < k < |fs| ==> !IsData(fs[k]);
        assert IsData(init[j]) && !init[j].fin;
        assert forall k :: j < k < |init| ==> !IsData(init[k]) by {
          assert forall k :: 0 <= k < |init| ==> init[k] == fs[k];
        }
      }
    } else if MessageOpen(fs) {
      var j :| 0 <= j < |fs| && IsData(fs[j]) && !fs[j].fin && forall k :: j < k < |fs| ==> !IsData(fs[k]);
      assert j == |init|;
    }
  }

  /**
   After a run without errors, the next valid frame draws error 1002 if and only if it is a continuation with
   no message open or a new data frame inside an open message.
   */
  lemma SequenceErrorExactly(codec: Codec, fs: seq<FrameData>, f: FrameData)
    requires NoErrors(RunFrames(codec, IDLE, fs).events) && f.valid
    ensures var events := FrameStep(codec, RunFrames(codec, IDLE, fs).state, f).events;
      (exists e :: e in events && e.Error? && e.code == CLOSE_PROTOCOL_ERROR)
      <==> IsData(f) && f.IsContinuation() == !MessageOpen(fs)
  {
    FragmentedMeansOpen(codec, fs);
    var st := RunFrames(codec, IDLE, fs).state;
    var events := FrameStep(codec, st, f).events;
    hide RunFrames, MessageOpen;
    if IsData(f) && f.IsContinuation() == !st.fragmented {
      assert events[0].Error? && events[0].code == CLOSE_PROTOCOL_ERROR;
    } else if f.IsControl() {
      assert forall e :: e in ControlStep(codec, st, f).events ==> !e.Error?;
    } else {
      var st' := if f.IsContinuation() then st else st.(opCode := f.opCode, fragmented := !f.fin);
      AppendNeverProtocolError(codec, st', f);
    }
  }

  lemma AppendNeverProtocolError(codec: Codec, st: State, f: FrameData)
    ensures forall e :: e in AppendStep(codec, st, f).events && e.Error? ==> e.code != CLOSE_PROTOCOL_ERROR
  {
  }

  // ---------- Whole messages between control frames ----------

  /** `fs` are data frames that carry `data` to the end of one message; `opCode` is that of the first of them. */
  predicate Carries(fs: seq<FrameData>, opCode: OpCode, data: seq<byte>)
    decreases |fs|
  {
    && fs != []
    && IsData(fs[0])
    && fs[0].opCode == opCode
    && fs[0].fin == (|fs| == 1)
    && fs[0].payload <= data
    && var rest := data[|fs[0].payload|..];
       if |fs| == 1 then rest == [] else Carries(fs[1..], OP_CONTINUE, rest)
  }

  /** The receiver's state while a binary message is arriving. */
  function Receiving(st: State, sofar: seq<byte>): State {
    st.(fragmented := true, opCode := OP_BINARY, binary := sofar)
  }

  function Flatten(groups: seq<seq<FrameData>>): seq<FrameData> {
    if groups == [] then [] else groups[0] + Flatten(groups[1..])
  }

  function BinaryMessages(es: seq<Event>): seq<seq<byte>> {
    if es == [] then []
    else (if es[0].BinaryMessage? then [es[0].data] else []) + BinaryMessages(es[1..])
  }

  lemma {:induction false} BinaryMessagesConcat(a: seq<Event>, b: seq<Event>)
    ensures BinaryMessages(a + b) == BinaryMessages(a) + BinaryMessages(b)
    decreases |a|
  {
    if a == [] {
      assert a + b == b;
    } else {
      var first: seq<seq<byte>> := if a[0].BinaryMessage? then [a[0].data] else [];
      assert (a + b)[1..] == a[1..] + b;
      BinaryMessagesConcat(a[1..], b);
      assert BinaryMessages(a + b) == first + (BinaryMessages(a[1..]) + BinaryMessages(b));
    }
  }

  lemma {:induction false} BinaryMessagesSurvive(es: seq<Event>)
    ensures BinaryMessages(MessageEvents(es)) == BinaryMessages(es)
    ensures NoErrors(MessageEvents(es)) ==> NoErrors(es)
  {
    if es != [] {
      BinaryMessagesSurvive(es[1..]);
      var kept := if es[0].FromControlFrame() then [] else [es[0]];
      BinaryMessagesConcat(kept, MessageEvents(es[1..]));
      assert MessageEvents(es) == kept + MessageEvents(es[1..]);
      assert es == [es[0]] + es[1..];
    }
  }

  lemma {:induction false} MessageArrives(
      codec: Codec, st: State, fs: seq<FrameData>, started: bool, sofar: seq<byte>, data: seq<byte>)
    requires st.Valid() && !st.fragmented && (!started ==> sofar == [])
    requires Carries(fs, if started then OP_CONTINUE else OP_BINARY, data) && |sofar + data| <= MAX_MESSAGE_SIZE
    ensures var run := RunFrames(codec, if started then Receiving(st, sofar) else st, fs);
      run.state == st && BinaryMessages(run.events) == [sofar + data] && NoErrors(run.events)
    decreases |fs|
  {
    var before := if started then Receiving(st, sofar) else st;
    var f, step := fs[0], FrameStep(codec, before, fs[0]);
    var whole := sofar + f.payload;
    ReceivedFragment(codec, st, started, sofar, f);
    hide FrameStep, State.Valid;
    if |fs| == 1 {
      assert whole == sofar + data;
      SingleFrameRun(codec, before, f);
      assert fs == [f];
    } else {
      var rest := data[|f.payload|..];
      assert whole + rest == sofar + data;
      MessageArrives(codec, st, fs[1..], true, whole, rest);
      var run := RunFrames(codec, Receiving(st, whole), fs[1..]);
      BinaryMessagesConcat(step.events, run.events);
    }
    FragmentEvents(f.payload, whole);
  }

  lemma FragmentEvents(payload: seq<byte>, whole: seq<byte>)
    ensures BinaryMessages([BinaryFrame(payload, true), BinaryMessage(whole)]) == [whole]
    ensures BinaryMessages([BinaryFrame(payload, false)]) == []
  {
    assert [BinaryFrame(payload, false)][1..] == [] && [BinaryMessage(whole)][1..] == [];
    assert BinaryMessages([BinaryMessage(whole)]) == [whole] + [];
    var es := [BinaryFrame(payload, true), BinaryMessage(whole)];
    assert es[1..] == [BinaryMessage(whole)];
    assert BinaryMessages(es) == [] + [whole];
  }

  lemma ReceivedFragment(codec: Codec, st: State, started: bool, sofar: seq<byte>, f: FrameData)
    requires st.Valid() && !st.fragmented && (!started ==> sofar == [])
    requires IsData(f) && f.opCode == if started then OP_CONTINUE else OP_BINARY
    ensures var whole := sofar + f.payload;
      FrameStep(codec, if started then Receiving(st, sofar) else st, f) ==
        if |whole| > MAX_MESSAGE_SIZE then ErrorStep(st, CLOSE_TOO_MUCH_DATA, MessageTooBig)
        else if f.fin then Step(st, [BinaryFrame(f.payload, true), BinaryMessage(whole)], true)
        else Step(Receiving(st, whole), [BinaryFrame(f.payload, false)], false)
  {
  }

  /**
   Whatever control frames lie between and inside the messages, and however the messages are fragmented,
   exactly these messages are emitted, whole and in order, and no error.
   */
  lemma {:induction false} MessagesArriveInOrder(
      codec: Codec, st: State, fs: seq<FrameData>, groups: seq<seq<FrameData>>, messages: seq<seq<byte>>)
    requires st.Valid() && !st.fragmented
    requires DataFrames(fs) == Flatten(groups) && |groups| == |messages|
    requires forall i :: 0 <= i < |groups| ==>
      Carries(groups[i], OP_BINARY, messages[i]) && |messages[i]| <= MAX_MESSAGE_SIZE
    ensures BinaryMessages(RunFrames(codec, st, fs).events) == messages
    ensures NoErrors(RunFrames(codec, st, fs).events) && RunFrames(codec, st, fs).state == st
  {
    ControlFramesDoNotInterfere(codec, st, fs);
    BinaryMessagesSurvive(RunFrames(codec, st, fs).events);
    GroupsArriveInOrder(codec, st, groups, messages);
  }

  lemma {:induction false} GroupsArriveInOrder(
      codec: Codec, st: State, groups: seq<seq<FrameData>>, messages: seq<seq<byte>>)
    requires st.Valid() && !st.fragmented && |groups| == |messages|
    requires forall i :: 0 <= i < |groups| ==>
      Carries(groups[i], OP_BINARY, messages[i]) && |messages[i]| <= MAX_MESSAGE_SIZE
    ensures var run := RunFrames(codec, st, Flatten(groups));
      BinaryMessages(run.events) == messages && NoErrors(run.events) && run.state == st
    decreases |groups|
  {
    hide Carries, FrameStep;
    if groups != [] {
      assert [] + messages[0] == messages[0];
      MessageArrives(codec, st, groups[0], false, [], messages[0]);
      GroupsArriveInOrder(codec, st, groups[1..], messages[1..]);
      RunFramesConcat(codec, st, groups[0], Flatten(groups[1..]));
      BinaryMessagesConcat(RunFrames(codec, st, groups[0]).events, RunFrames(codec, st, Flatten(groups[1..])).events);
      assert messages == [messages[0]] + messages[1..];
    }
  }

  // ---------- Sender to receiver ----------

  function FrameEvents(fs: seq<SentFrame>): seq<Event> {
    if fs == [] then [] else [BinaryFrame(fs[0].payload, fs[0].last)] + FrameEvents(fs[1..])
  }

  lemma FirstFrameIsHandled(codec: Codec, st: State, fs: seq<SentFrame>, tail: seq<byte>)
    requires fs != [] && fs[0].Sendable()
    ensures var step := FrameStep(codec, st, fs[0].AsRead());
      var wire, rest := FramesBytes(fs) + tail, FramesBytes(fs[1..]) + tail;
      ProcessSpec(codec, st, wire) ==
        if step.done then Processed(step.state, step.events, rest, false)
        else var p := ProcessSpec(codec, step.state, rest); p.(events := step.events + p.events)
  {
    hide ParseFrame, ProcessSpec, FrameStep, SentFrame.Bytes;
    var rest := FramesBytes(fs[1..]) + tail;
    assert FramesBytes(fs) + tail == fs[0].Bytes() + rest;
    FrameRoundTrip(fs[0], rest);
    ProcessSpecStep(codec, st, fs[0].Bytes() + rest);
  }

  /**
   Reading what the sender wrote for the rest of a message: with `sofar` received, one call of `process` emits
   the frames and then the whole message, and leaves exactly the bytes behind it, if the message is not too big;
   otherwise it ends in error 1009 without emitting a message.
   */
  lemma {:induction false} RestOfMessageArrives(
      codec: Codec, st: State, sofar: seq<byte>, data: seq<byte>, keys: nat -> Key, first: nat, tail: seq<byte>)
    requires st.Valid() && !st.fragmented
    ensures var fs := MessageFrames(data, if sofar == [] then OP_BINARY else OP_CONTINUE, keys, first);
      var p := ProcessSpec(codec, if sofar == [] then st else Receiving(st, sofar), FramesBytes(fs) + tail);
      if |sofar + data| <= MAX_MESSAGE_SIZE then
        p == Processed(st, FrameEvents(fs) + [BinaryMessage(sofar + data)], tail, false)
      else
        && p.state == st
        && p.events != [] && p.events[|p.events| - 1] == Error(CLOSE_TOO_MUCH_DATA, MessageTooBig)
        && (forall e :: e in p.events ==> !e.BinaryMessage? && !e.TextMessage?)
    decreases |data|
  {
    hide ProcessSpec, FrameStep, SentFrame.Bytes;
    var opCode: OpCode := if sofar == [] then OP_BINARY else OP_CONTINUE;
    var fs := MessageFrames(data, opCode, keys, first);
    var f := fs[0];
    var before := if sofar == [] then st else Receiving(st, sofar);
    FirstFrameIsHandled(codec, before, fs, tail);
    ReceivedFragment(codec, st, sofar != [], sofar, f.AsRead());
    if |data| <= FRAME_SIZE {
      assert fs[1..] == [] && FramesBytes(fs[1..]) + tail == tail;
      assert FrameEvents(fs) == [BinaryFrame(data, true)];
    } else if |sofar + f.payload| <= MAX_MESSAGE_SIZE {
      var rest := data[FRAME_SIZE..];
      assert fs[1..] == MessageFrames(rest, OP_CONTINUE, keys, first + 1);
      assert sofar + data == sofar + f.payload + rest;
      RestOfMessageArrives(codec, st, sofar + f.payload, rest, keys, first + 1, tail);
      assert FrameEvents(fs) == [BinaryFrame(f.payload, false)] + FrameEvents(fs[1..]);
    }
  }

  /**
   End to end: a receiver between messages that reads the bytes written for `data` emits exactly one binary
   message, equal to `data`, and consumes exactly those bytes, if and only if `data` is within the size limit.
   The keys are arbitrary, zero keys and unmasked frames included.
   */
  lemma EndToEnd(codec: Codec, st: State, data: seq<byte>, keys: nat -> Key, first: nat, tail: seq<byte>)
    requires st.Valid() && !st.fragmented
    ensures var fs := MessageFrames(data, OP_BINARY, keys, first);
      var p := ProcessSpec(codec, st, FramesBytes(fs) + tail);
      && (|data| <= MAX_MESSAGE_SIZE <==>
            p == Processed(st, FrameEvents(fs) + [BinaryMessage(data)], tail, false))
      && (|data| > MAX_MESSAGE_SIZE <==> (forall e :: e in p.events ==> !e.BinaryMessage?))
  {
    RestOfMessageArrives(codec, st, [], data, keys, first, tail);
    assert [] + data == data;
    var fs := MessageFrames(data, OP_BINARY, keys, first);
    var events := FrameEvents(fs) + [BinaryMessage(data)];
    assert events[|events| - 1] == BinaryMessage(data);
  }

  /** The same after any calls of `process` on any bytes that leave no message open, errors included. */
  lemma EndToEndAfterRun(codec: Codec, s: seq<byte>, calls: nat, data: seq<byte>, keys: nat -> Key, first: nat,
                         tail: seq<byte>)
    ensures var before := Calls(codec, IDLE, s, calls).state;
      !before.fragmented ==>
        var fs := MessageFrames(data, OP_BINARY, keys, first);
        var p := ProcessSpec(codec, before, FramesBytes(fs) + tail);
        && (|data| <= MAX_MESSAGE_SIZE <==>
              p == Processed(before, FrameEvents(fs) + [BinaryMessage(data)], tail, false))
        && (|data| > MAX_MESSAGE_SIZE <==> (forall e :: e in p.events ==> !e.BinaryMessage?))
  {
    hide ProcessSpec, Calls, State.Valid, MessageFrames, FramesBytes, FrameEvents;
    IdleIsValid();
    CallsKeepValid(codec, IDLE, s, calls);
    var before := Calls(codec, IDLE, s, calls).state;
    if !before.fragmented {
      EndToEnd(codec, before, data, keys, first, tail);
    }
  }
}
