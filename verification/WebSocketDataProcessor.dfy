/** Reassembly of fragmented messages with control frames in between (RFC 6455, sections 5.4 and 5.5). */
module WebSocketDataProcessor {
  import opened WebSocketProtocol
  import opened WebSocketFrames

  // ---------- The text decoder of the library ----------

  datatype ConverterState = ConverterState(remainingChars: int, invalidChars: int, stateData: (int, int, int))
  {
    predicate Clean() { remainingChars == 0 && invalidChars == 0 }
  }

  const FRESH_CONVERTER := ConverterState(0, 0, (0, 0, 0))

  datatype Decoded = Decoded(text: Text, state: ConverterState)

  datatype ReasonText = ValidText(text: Text) | InvalidText

  /** `decode` continues a text, `decodeReason` decodes a complete one. */
  datatype Codec = Codec(decode: (seq<byte>, ConverterState) -> Decoded, decodeReason: seq<byte> -> ReasonText)

  // ---------- What is emitted ----------

  datatype Event =
    | TextFrame(text: Text, last: bool)
    | BinaryFrame(data: seq<byte>, last: bool)
    | TextMessage(text: Text)
    | BinaryMessage(data: seq<byte>)
    | PingReceived(data: seq<byte>)
    | PongReceived(data: seq<byte>)
    | CloseReceived(code: nat, reason: Reason)
    | Error(code: nat, reason: Reason)
  {
    predicate FromControlFrame() { PingReceived? || PongReceived? || CloseReceived? }
  }

  // ---------- One frame ----------

  datatype State = State(
    fragmented: bool, opCode: OpCode, binary: seq<byte>, text: Text, converter: ConverterState)
  {
    function Cleared(): State {
      State(false, OP_CLOSE, [], [], if converter.Clean() then converter else FRESH_CONVERTER)
    }

    predicate Valid() {
      if fragmented then
        || (opCode == OP_BINARY && text == [] && |binary| <= MAX_MESSAGE_SIZE)
        || (opCode == OP_TEXT && binary == [])
      else
        this == Cleared()
    }
  }

  const IDLE := State(false, OP_CLOSE, [], [], FRESH_CONVERTER)

  datatype Step = Step(state: State, events: seq<Event>, done: bool)

  function ErrorStep(st: State, code: nat, reason: Reason): Step {
    Step(st.Cleared(), [Error(code, reason)], true)
  }

  function CloseEvent(codec: Codec, payload: seq<byte>): Event {
    if |payload| == 0 then CloseReceived(CLOSE_NORMAL, NoReason)
    else if |payload| == 1 then CloseReceived(CLOSE_PROTOCOL_ERROR, ClosePayloadTooSmall)
    else
      var code := FromBigEndian(payload[..2]);
      if !IsCloseCodeValid(code) then CloseReceived(CLOSE_PROTOCOL_ERROR, InvalidCloseCode(CLOSE_PROTOCOL_ERROR))
      else if |payload| == 2 then CloseReceived(code, NoReason)
      else
        match codec.decodeReason(payload[2..])
        case InvalidText => CloseReceived(CLOSE_WRONG_DATATYPE, InvalidUtf8)
        case ValidText(text) => CloseReceived(code, ReasonOf(text))
  }

  /** An empty text is the same as no reason. */
  function ReasonOf(text: Text): Reason {
    if text == [] then NoReason else Peer(text)
  }

  function ControlStep(codec: Codec, st: State, f: FrameData): Step
    requires f.IsControl()
  {
    if f.opCode == OP_PING then Step(st, [PingReceived(f.payload)], true)
    else if f.opCode == OP_PONG then Step(st, [PongReceived(f.payload)], true)
    else if f.opCode == OP_CLOSE then Step(st, [CloseEvent(codec, f.payload)], true)
    else Step(st, [], true)
  }

  /** The payload of a data frame joins the message; `st` names the type of the message. */
  function AppendStep(codec: Codec, st: State, f: FrameData): Step {
    var length := if st.opCode == OP_TEXT then |st.text| else |st.binary|;
    if length + |f.payload| > MAX_MESSAGE_SIZE then ErrorStep(st, CLOSE_TOO_MUCH_DATA, MessageTooBig)
    else if st.opCode == OP_TEXT then
      var d := codec.decode(f.payload, st.converter);
      var failed := d.state.invalidChars != 0 || (f.fin && d.state.remainingChars != 0);
      var st' := st.(converter := d.state);
      if failed then ErrorStep(st', CLOSE_WRONG_DATATYPE, InvalidUtf8)
      else
        var whole := st.text + d.text;
        if f.fin then Step(st'.Cleared(), [TextFrame(d.text, true), TextMessage(whole)], true)
        else Step(st'.(text := whole), [TextFrame(d.text, false)], false)
    else
      var whole := st.binary + f.payload;
      if f.fin then Step(st.Cleared(), [BinaryFrame(f.payload, true), BinaryMessage(whole)], true)
      else Step(st.(binary := whole), [BinaryFrame(f.payload, false)], false)
  }

  function DataStep(codec: Codec, st: State, f: FrameData): Step {
    if !st.fragmented && f.IsContinuation() then ErrorStep(st, CLOSE_PROTOCOL_ERROR, NothingToContinue)
    else if st.fragmented && !f.IsContinuation() then ErrorStep(st, CLOSE_PROTOCOL_ERROR, ContinuationExpected)
    else AppendStep(codec, if f.IsContinuation() then st else st.(opCode := f.opCode, fragmented := !f.fin), f)
  }

  function FrameStep(codec: Codec, st: State, f: FrameData): Step {
    if !f.valid then ErrorStep(st, f.closeCode, f.closeReason)
    else if f.IsControl() then ControlStep(codec, st, f)
    else DataStep(codec, st, f)
  }

  // ---------- One call of `process` on a byte stream ----------

  datatype Processed = Processed(state: State, events: seq<Event>, rest: seq<byte>, timedOut: bool)

  function ProcessSpec(codec: Codec, st: State, s: seq<byte>): Processed
    decreases |s|
  {
    var o := ParseFrame(s);
    var step := FrameStep(codec, st, o.frame);
    if step.done then Processed(step.state, step.events, o.rest, o.frame.closeReason == ReadTimeout)
    else
      var p := ProcessSpec(codec, step.state, o.rest);
      p.(events := step.events + p.events)
  }

  lemma ProcessSpecStep(codec: Codec, st: State, s: seq<byte>)
    ensures var o := ParseFrame(s); var step := FrameStep(codec, st, o.frame);
      if step.done then
        ProcessSpec(codec, st, s) == Processed(step.state, step.events, o.rest, o.frame.closeReason == ReadTimeout)
      else
        var p := ProcessSpec(codec, step.state, o.rest);
        && ProcessSpec(codec, st, s) == p.(events := step.events + p.events)
        && o.frame.closeReason != ReadTimeout
        && |o.rest| < |s|
  {
  }

  lemma IdleIsValid()
    ensures IDLE.Valid()
  {
  }

  lemma FrameStepKeepsValid(codec: Codec, st: State, f: FrameData)
    requires st.Valid() && (f.valid ==> !IsOpCodeReserved(f.opCode))
    ensures FrameStep(codec, st, f).state.Valid()
  {
    hide CloseEvent;
  }

  /** Whatever bytes arrive: a message lies in the buffer of its own type only, and outside messages none does. */
  lemma {:induction false} ProcessKeepsValid(codec: Codec, st: State, s: seq<byte>)
    requires st.Valid()
    ensures ProcessSpec(codec, st, s).state.Valid()
    decreases |s|
  {
    hide ProcessSpec, ParseFrame, FrameStep, State.Valid;
    var o := ParseFrame(s);
    var step := FrameStep(codec, st, o.frame);
    ValidFrameIsKnown(s);
    FrameStepKeepsValid(codec, st, o.frame);
    ProcessSpecStep(codec, st, s);
    if !step.done {
      ProcessKeepsValid(codec, step.state, o.rest);
    }
  }

  class DataProcessor {
    const codec: Codec
    var isFragmented: bool
    var opCode: OpCode
    var binaryMessage: seq<byte>
    var textMessage: Text
    var converterState: ConverterState
    ghost var log: seq<Event>  // everything emitted so far

    function Snapshot(): State
      reads this
    {
      State.State(isFragmented, opCode, binaryMessage, textMessage, converterState)
    }

    constructor (codec: Codec)
      ensures this.codec == codec && Snapshot() == IDLE && log == []
    {
      this.codec := codec;
      isFragmented, opCode, binaryMessage, textMessage := false, OP_CLOSE, [], [];
      converterState := FRESH_CONVERTER;
      log := [];
    }

    method Clear()
      modifies this
      ensures Snapshot() == old(Snapshot()).Cleared() && log == old(log)
    {
      isFragmented, opCode, binaryMessage, textMessage := false, OP_CLOSE, [], [];
      if converterState.remainingChars != 0 || converterState.invalidChars != 0 {
        converterState := FRESH_CONVERTER;
      }
    }

    ghost method Emit(event: Event)
      modifies this`log
      ensures log == old(log) + [event]
    {
      log := log + [event];
    }

    method ProcessControlFrame(frame: FrameData) returns (isDone: bool)
      requires frame.IsControl()
      modifies this
      ensures var step := ControlStep(codec, old(Snapshot()), frame);
        Snapshot() == step.state && log == old(log) + step.events && isDone == step.done
    {
      isDone := true;
      if frame.opCode == OP_PING {
        Emit(PingReceived(frame.payload));
      } else if frame.opCode == OP_PONG {
        Emit(PongReceived(frame.payload));
      } else if frame.opCode == OP_CLOSE {
        var closeCode: nat, closeReason := CLOSE_NORMAL, NoReason;
        var payload := frame.payload;
        if |payload| == 1 {
          closeCode, closeReason := CLOSE_PROTOCOL_ERROR, ClosePayloadTooSmall;
        } else if |payload| > 1 {
          closeCode := FromBigEndian(payload[..2]);
          if !IsCloseCodeValid(closeCode) {
            closeCode := CLOSE_PROTOCOL_ERROR;
            closeReason := InvalidCloseCode(closeCode);
          } else if |payload| > 2 {
            match codec.decodeReason(payload[2..])
            case ValidText(text) =>
              closeReason := ReasonOf(text);
            case InvalidText =>
              closeCode, closeReason := CLOSE_WRONG_DATATYPE, InvalidUtf8;
          }
        }
        Emit(CloseReceived(closeCode, closeReason));
      }
    }

    method ProcessDataFrame(frame: FrameData) returns (isDone: bool)
      requires frame.valid && !frame.IsControl()
      modifies this
      ensures var step := DataStep(codec, old(Snapshot()), frame);
        Snapshot() == step.state && log == old(log) + step.events && isDone == step.done
    {
      if !isFragmented && frame.IsContinuation() {
        Clear();
        Emit(Error(CLOSE_PROTOCOL_ERROR, NothingToContinue));
        return true;
      }
      if isFragmented && !frame.IsContinuation() {
        Clear();
        Emit(Error(CLOSE_PROTOCOL_ERROR, ContinuationExpected));
        return true;
      }
      if !frame.IsContinuation() {
        opCode := frame.opCode;
        isFragmented := !frame.fin;
      }
      isDone := AppendPayload(frame);
    }

    method AppendPayload(frame: FrameData) returns (isDone: bool)
      modifies this
      ensures var step := AppendStep(codec, old(Snapshot()), frame);
        Snapshot() == step.state && log == old(log) + step.events && isDone == step.done
    {
      var messageLength := if opCode == OP_TEXT then |textMessage| else |binaryMessage|;
      if messageLength + |frame.payload| > MAX_MESSAGE_SIZE {
        Clear();
        Emit(Error(CLOSE_TOO_MUCH_DATA, MessageTooBig));
        return true;
      }
      if opCode == OP_TEXT {
        var decoded := codec.decode(frame.payload, converterState);
        converterState := decoded.state;
        var failed := converterState.invalidChars != 0 || (frame.fin && converterState.remainingChars != 0);
        if failed {
          Clear();
          Emit(Error(CLOSE_WRONG_DATATYPE, InvalidUtf8));
          return true;
        }
        textMessage := textMessage + decoded.text;
        Emit(TextFrame(decoded.text, frame.fin));
      } else {
        binaryMessage := binaryMessage + frame.payload;
        Emit(BinaryFrame(frame.payload, frame.fin));
      }
      isDone := false;
      if frame.fin {
        if opCode == OP_TEXT {
          Emit(TextMessage(textMessage));
        } else {
          Emit(BinaryMessage(binaryMessage));
        }
        Clear();
        isDone := true;
      }
    }

    method HandleFrame(frame: FrameData) returns (isDone: bool)
      modifies this
      ensures var step := FrameStep(codec, old(Snapshot()), frame);
        Snapshot() == step.state && log == old(log) + step.events && isDone == step.done
    {
      hide ControlStep, DataStep;
      if frame.valid {
        if frame.IsControl() {
          isDone := ProcessControlFrame(frame);
        } else {
          isDone := ProcessDataFrame(frame);
        }
      } else {
        Emit(Error(frame.closeCode, frame.closeReason));
        Clear();
        isDone := true;
      }
    }

    /** One call reads and handles frames until a message, a control frame or an error is complete. */
    method Process(device: Device)
      modifies this, device
      ensures var p := ProcessSpec(codec, old(Snapshot()), old(device.Visible()));
        && Snapshot() == p.state
        && log == old(log) + p.events
        && device.Unread() == p.rest + old(device.Later())
        && (!p.timedOut ==> device.Visible() == p.rest && device.Later() == old(device.Later()))
      ensures old(Snapshot()).Valid() ==> Snapshot().Valid()
    {
      hide ProcessSpec, ParseFrame, FrameStep, Device.Visible, Device.Unread, State.Valid;
      if Snapshot().Valid() {
        ProcessKeepsValid(codec, Snapshot(), device.Visible());
      }
      var isDone := false;
      ghost var goal, later := ProcessSpec(codec, Snapshot(), device.Visible()), device.Later();
      ghost var emitted := [];
      while !isDone
        invariant log == old(log) + emitted
        invariant !isDone ==> device.Later() == later
        invariant !isDone ==>
          var p := ProcessSpec(codec, Snapshot(), device.Visible());
          goal == p.(events := emitted + p.events)
        invariant isDone ==> Snapshot() == goal.state && emitted == goal.events && device.Unread() == goal.rest + later
        invariant isDone && !goal.timedOut ==> device.Visible() == goal.rest && device.Later() == later
        decreases !isDone, |device.Visible()|
      {
        ghost var step := FrameStep(codec, Snapshot(), ParseFrame(device.Visible()).frame);
        ProcessSpecStep(codec, Snapshot(), device.Visible());
        var frame := ReadFrame(device);
        isDone := HandleFrame(frame.Data());
        emitted := emitted + step.events;
      }
    }
  }
}
