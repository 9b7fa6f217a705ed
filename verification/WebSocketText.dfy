/** Text messages: fragmentation does not matter, not even inside a character (RFC 6455, sections 5.4 and 5.6). */
module WebSocketText {
  import opened WebSocketProtocol
  import opened WebSocketFrames
  import opened WebSocketWriter
  import opened WebSocketDataProcessor
  import opened WebSocketReassembly

  // ---------- What is assumed of the decoder ----------

  /**
   Decoding a text in pieces is decoding it in one; an invalid character is never forgotten; and a text that starts
   at the beginning of a character has no more code units than bytes.
   */
  ghost predicate IsStreamDecoder(codec: Codec) {
    && (forall st: ConverterState :: codec.decode([], st) == Decoded([], st))
    && (forall a, b, st ::
          codec.decode(a + b, st) == Decoded(codec.decode(a, st).text + codec.decode(b, codec.decode(a, st).state).text,
                                             codec.decode(b, codec.decode(a, st).state).state))
    && (forall a, st: ConverterState :: st.invalidChars != 0 ==> codec.decode(a, st).state.invalidChars != 0)
    && (forall a, st: ConverterState :: st.Clean() ==> |codec.decode(a, st).text| <= |a|)
  }

  lemma DecodedInPieces(codec: Codec, a: seq<byte>, b: seq<byte>, st: ConverterState)
    requires IsStreamDecoder(codec)
    ensures var first := codec.decode(a, st); var second := codec.decode(b, first.state);
      && codec.decode(a + b, st) == Decoded(first.text + second.text, second.state)
      && (first.state.invalidChars != 0 ==> second.state.invalidChars != 0)
  {
  }

  lemma TextIsNoLonger(codec: Codec, a: seq<byte>, st: ConverterState)
    requires IsStreamDecoder(codec) && st.Clean()
    ensures |codec.decode(a, st).text| <= |a| && codec.decode([], st) == Decoded([], st)
  {
  }

  // ---------- One text message ----------

  /** The receiver's state when the bytes in `sofar` of a text message have arrived. */
  function ReceivingText(codec: Codec, st: State, sofar: seq<byte>): State {
    var d := codec.decode(sofar, st.converter);
    st.(fragmented := true, opCode := OP_TEXT, text := d.text, converter := d.state)
  }

  function Before(codec: Codec, st: State, started: bool, sofar: seq<byte>): State {
    if started then ReceivingText(codec, st, sofar) else st
  }

  /** The receiver between messages, with the converter as a message has left it. */
  function Between(st: State, converter: ConverterState): State {
    st.(converter := if converter.Clean() then converter else FRESH_CONVERTER)
  }

  predicate Fails(d: Decoded, last: bool) {
    d.state.invalidChars != 0 || (last && d.state.remainingChars != 0)
  }

  const INVALID_TEXT := Error(CLOSE_WRONG_DATATYPE, InvalidUtf8)
  const TOO_BIG := Error(CLOSE_TOO_MUCH_DATA, MessageTooBig)

  /** Each frame finds room: the text so far and the bytes of the frame are within the limit together. */
  predicate Fits(codec: Codec, st: State, sofar: seq<byte>, fs: seq<FrameData>)
    decreases |fs|
  {
    fs == []
    || (&& |codec.decode(sofar, st.converter).text| + |fs[0].payload| <= MAX_MESSAGE_SIZE
        && Fits(codec, st, sofar + fs[0].payload, fs[1..]))
  }

  /** What ends a text that cannot be emitted: the first frame without room or with an invalid character decides. */
  function ErrorOf(codec: Codec, st: State, sofar: seq<byte>, fs: seq<FrameData>): Event
    decreases |fs|
  {
    if fs == [] then INVALID_TEXT
    else if |codec.decode(sofar, st.converter).text| + |fs[0].payload| > MAX_MESSAGE_SIZE then TOO_BIG
    else if codec.decode(sofar + fs[0].payload, st.converter).state.invalidChars != 0 then INVALID_TEXT
    else ErrorOf(codec, st, sofar + fs[0].payload, fs[1..])
  }

  function TextMessages(es: seq<Event>): seq<Text> {
    if es == [] then []
    else (if es[0].TextMessage? then [es[0].text] else []) + TextMessages(es[1..])
  }

  /** What the text frames hand over piece by piece. */
  function TextFrames(es: seq<Event>): Text {
    if es == [] then [] else (if es[0].TextFrame? then es[0].text else []) + TextFrames(es[1..])
  }

  lemma {:induction false} TextMessagesConcat(a: seq<Event>, b: seq<Event>)
    ensures TextMessages(a + b) == TextMessages(a) + TextMessages(b)
  {
    if a == [] {
      assert a + b == b;
    } else {
      assert (a + b)[1..] == a[1..] + b;
      TextMessagesConcat(a[1..], b);
    }
  }

  lemma {:induction false} TextFramesConcat(a: seq<Event>, b: seq<Event>)
    ensures TextFrames(a + b) == TextFrames(a) + TextFrames(b)
  {
    if a == [] {
      assert a + b == b;
    } else {
      assert (a + b)[1..] == a[1..] + b;
      TextFramesConcat(a[1..], b);
    }
  }

  lemma TextEvents(text: Text, whole: Text)
    ensures TextMessages([TextFrame(text, true), TextMessage(whole)]) == [whole]
    ensures TextMessages([TextFrame(text, false)]) == []
    ensures TextFrames([TextFrame(text, true), TextMessage(whole)]) == text
    ensures TextFrames([TextFrame(text, false)]) == text
  {
    var es := [TextFrame(text, true), TextMessage(whole)];
    assert es[1..] == [TextMessage(whole)] && [TextMessage(whole)][1..] == [] && [TextFrame(text, false)][1..] == [];
    assert TextMessages([TextMessage(whole)]) == [whole] + [];
    assert TextFrames([TextMessage(whole)]) == [] + [];
    assert text + [] == text;
  }

  lemma ReceivedText(codec: Codec, st: State, started: bool, sofar: seq<byte>, f: FrameData)
    requires IsStreamDecoder(codec) && st.Valid() && !st.fragmented && (!started ==> sofar == [])
    requires IsData(f) && f.opCode == if started then OP_CONTINUE else OP_TEXT
    ensures var first, d := codec.decode(sofar, st.converter), codec.decode(sofar + f.payload, st.converter);
      var piece := codec.decode(f.payload, first.state).text;
      && d.text == first.text + piece
      && FrameStep(codec, Before(codec, st, started, sofar), f) ==
           if |first.text| + |f.payload| > MAX_MESSAGE_SIZE then Step(Between(st, first.state), [TOO_BIG], true)
           else if Fails(d, f.fin) then Step(Between(st, d.state), [INVALID_TEXT], true)
           else if f.fin then Step(Between(st, d.state), [TextFrame(piece, true), TextMessage(d.text)], true)
           else Step(ReceivingText(codec, st, sofar + f.payload), [TextFrame(piece, false)], false)
  {
    DecodedInPieces(codec, sofar, f.payload, st.converter);
    TextIsNoLonger(codec, sofar, st.converter);
    hide IsStreamDecoder;
    var first := codec.decode(sofar, st.converter);
    assert [] + codec.decode(f.payload, first.state).text == codec.decode(f.payload, first.state).text;
  }

  lemma OneError(code: nat, reason: Reason)
    ensures TextMessages([Error(code, reason)]) == [] && TextFrames([Error(code, reason)]) == []
    ensures TextMessages([]) == []
  {
    assert [Error(code, reason)][1..] == [];
  }

  /** Continuations of a message that has been given up are errors. */
  lemma {:induction false} RestIsRefused(codec: Codec, st: State, fs: seq<FrameData>, data: seq<byte>)
    requires st.Valid() && !st.fragmented && (fs != [] ==> Carries(fs, OP_CONTINUE, data))
    ensures var run := RunFrames(codec, st, fs); run.state == st && TextMessages(run.events) == []
    decreases |fs|
  {
    if fs != [] {
      var step := FrameStep(codec, st, fs[0]);
      assert step == ErrorStep(st, CLOSE_PROTOCOL_ERROR, NothingToContinue);
      var rest := data[|fs[0].payload|..];
      if |fs| > 1 {
        RestIsRefused(codec, st, fs[1..], rest);
      }
      assert step.events[1..] == [];
      TextMessagesConcat(step.events, RunFrames(codec, st, fs[1..]).events);
    }
  }

  /**
   What has become of a text of which `sofar` had arrived and `all` is the whole: it is emitted if and only if its
   frames fit and it decodes.
   */
  predicate Arrived(codec: Codec, st: State, sofar: seq<byte>, all: seq<byte>, fits: bool, error: Event, run: Run) {
    var d := codec.decode(all, st.converter);
    if fits && d.state.Clean() then
      && run.state == st.(converter := d.state) && TextMessages(run.events) == [d.text] && NoErrors(run.events)
      && codec.decode(sofar, st.converter).text + TextFrames(run.events) == d.text
    else
      TextMessages(run.events) == [] && error in run.events
  }

  function Piece(codec: Codec, st: State, sofar: seq<byte>, payload: seq<byte>): Text {
    codec.decode(payload, codec.decode(sofar, st.converter).state).text
  }

  lemma LastPiece(codec: Codec, st: State, sofar: seq<byte>, payload: seq<byte>)
    requires IsStreamDecoder(codec)
    ensures var all := sofar + payload; var d := codec.decode(all, st.converter);
      var piece := Piece(codec, st, sofar, payload);
      Arrived(codec, st, sofar, all, true, INVALID_TEXT,
              Run(Between(st, d.state),
                  if Fails(d, true) then [INVALID_TEXT] else [TextFrame(piece, true), TextMessage(d.text)]))
  {
    DecodedInPieces(codec, sofar, payload, st.converter);
    var d := codec.decode(sofar + payload, st.converter);
    TextEvents(Piece(codec, st, sofar, payload), d.text);
    OneError(CLOSE_WRONG_DATATYPE, InvalidUtf8);
  }

  /** A piece that draws an error ends the text, whatever comes later. */
  lemma RefusedPiece(codec: Codec, st: State, sofar: seq<byte>, before: seq<byte>, rest: seq<byte>, fits: bool,
                     error: Event, later: Run)
    requires IsStreamDecoder(codec) && error.Error? && TextMessages(later.events) == []
    requires fits ==> codec.decode(before, st.converter).state.invalidChars != 0
    ensures Arrived(codec, st, sofar, before + rest, fits, error, Run(later.state, [error] + later.events))
  {
    DecodedInPieces(codec, before, rest, st.converter);
    OneError(error.code, error.reason);
    TextMessagesConcat([error], later.events);
    assert ([error] + later.events)[0] == error;
  }

  lemma MorePieces(codec: Codec, st: State, sofar: seq<byte>, payload: seq<byte>, all: seq<byte>, fits: bool,
                   error: Event, later: Run)
    requires IsStreamDecoder(codec) && Arrived(codec, st, sofar + payload, all, fits, error, later)
    ensures Arrived(codec, st, sofar, all, fits, error,
                    Run(later.state, [TextFrame(Piece(codec, st, sofar, payload), false)] + later.events))
  {
    DecodedInPieces(codec, sofar, payload, st.converter);
    hide IsStreamDecoder, TextMessages, TextFrames;
    var piece, head := Piece(codec, st, sofar, payload), codec.decode(sofar, st.converter).text;
    var events: seq<Event> := [TextFrame(piece, false)];
    TextEvents(piece, []);
    TextMessagesConcat(events, later.events);
    TextFramesConcat(events, later.events);
    assert head + (piece + TextFrames(later.events)) == head + piece + TextFrames(later.events);
    assert [] + TextMessages(later.events) == TextMessages(later.events);
    assert error in later.events ==> error in events + later.events;
  }

  /**
   However a text is cut into frames, even inside characters: if the frames fit and it decodes, exactly this one
   message is emitted, and its frames hand over the same text; otherwise error 1009 or 1007 and no message.
   */
  lemma {:induction false} TextArrives(
      codec: Codec, st: State, fs: seq<FrameData>, started: bool, sofar: seq<byte>, data: seq<byte>)
    requires IsStreamDecoder(codec) && st.Valid() && !st.fragmented && (!started ==> sofar == [])
    requires Carries(fs, if started then OP_CONTINUE else OP_TEXT, data)
    ensures Arrived(codec, st, sofar, sofar + data, Fits(codec, st, sofar, fs), ErrorOf(codec, st, sofar, fs),
                    RunFrames(codec, Before(codec, st, started, sofar), fs))
    decreases |fs|
  {
    hide IsStreamDecoder, FrameStep, Arrived, State.Valid, ReceivingText, Between, Before;
    var f, before := fs[0], Before(codec, st, started, sofar);
    var whole, rest := sofar + f.payload, data[|f.payload|..];
    assert whole + rest == sofar + data;
    ReceivedText(codec, st, started, sofar, f);
    var first, d := codec.decode(sofar, st.converter), codec.decode(whole, st.converter);
    if |first.text| + |f.payload| > MAX_MESSAGE_SIZE {
      TextIsRefused(codec, st, fs, started, sofar, data, first.state, TOO_BIG);
    } else if |fs| == 1 {
      assert fs == [f] && whole == sofar + data && fs[1..] == [];
      LastPiece(codec, st, sofar, f.payload);
      SingleFrameRun(codec, before, f);
    } else if d.state.invalidChars != 0 {
      TextIsRefused(codec, st, fs, started, sofar, data, d.state, INVALID_TEXT);
    } else {
      TextArrives(codec, st, fs[1..], true, whole, rest);
      assert Before(codec, st, true, whole) == ReceivingText(codec, st, whole) by { BeforeStarted(codec, st, whole); }
      MorePieces(codec, st, sofar, f.payload, sofar + data, Fits(codec, st, sofar, fs), ErrorOf(codec, st, sofar, fs),
                 RunFrames(codec, ReceivingText(codec, st, whole), fs[1..]));
    }
  }

  lemma BeforeStarted(codec: Codec, st: State, sofar: seq<byte>)
    ensures Before(codec, st, true, sofar) == ReceivingText(codec, st, sofar)
  {
  }

  /** When the first frame draws an error, the others draw errors too. */
  lemma TextIsRefused(codec: Codec, st: State, fs: seq<FrameData>, started: bool, sofar: seq<byte>, data: seq<byte>,
                      converter: ConverterState, error: Event)
    requires IsStreamDecoder(codec) && st.Valid() && !st.fragmented && error.Error?
    requires Carries(fs, if started then OP_CONTINUE else OP_TEXT, data)
    requires FrameStep(codec, Before(codec, st, started, sofar), fs[0]) == Step(Between(st, converter), [error], true)
    requires Fits(codec, st, sofar, fs) ==>
      codec.decode(sofar + fs[0].payload, st.converter).state.invalidChars != 0
    ensures Arrived(codec, st, sofar, sofar + data, Fits(codec, st, sofar, fs), error,
                    RunFrames(codec, Before(codec, st, started, sofar), fs))
  {
    hide IsStreamDecoder, FrameStep, Arrived, State.Valid, ReceivingText, Between, Before, Fits;
    var whole, rest := sofar + fs[0].payload, data[|fs[0].payload|..];
    assert whole + rest == sofar + data;
    BetweenIsIdle(st, converter);
    RestIsRefused(codec, Between(st, converter), fs[1..], rest);
    RefusedPiece(codec, st, sofar, whole, rest, Fits(codec, st, sofar, fs), error,
                 RunFrames(codec, Between(st, converter), fs[1..]));
  }

  /** A text whose bytes are within the limit always fits, and only an invalid character can end it. */
  lemma {:induction false} ShortTextFits(
      codec: Codec, st: State, fs: seq<FrameData>, opCode: OpCode, sofar: seq<byte>, data: seq<byte>)
    requires IsStreamDecoder(codec) && st.converter.Clean() && Carries(fs, opCode, data)
    requires |sofar + data| <= MAX_MESSAGE_SIZE
    ensures Fits(codec, st, sofar, fs) && ErrorOf(codec, st, sofar, fs) == INVALID_TEXT
    decreases |fs|
  {
    hide IsStreamDecoder;
    TextIsNoLonger(codec, sofar, st.converter);
    if |fs| > 1 {
      var rest := data[|fs[0].payload|..];
      assert sofar + fs[0].payload + rest == sofar + data;
      ShortTextFits(codec, st, fs[1..], OP_CONTINUE, sofar + fs[0].payload, rest);
    }
  }

  lemma BetweenIsIdle(st: State, converter: ConverterState)
    requires st.Valid() && !st.fragmented
    ensures Between(st, converter).Valid() && !Between(st, converter).fragmented
  {
  }

  // ---------- Sender to receiver ----------

  function AllAsRead(fs: seq<SentFrame>): seq<FrameData> {
    if fs == [] then [] else [fs[0].AsRead()] + AllAsRead(fs[1..])
  }

  /** The frames written for a message carry it. */
  lemma {:induction false} WrittenFramesCarry(data: seq<byte>, opCode: OpCode, keys: nat -> Key, first: nat)
    requires opCode <= OP_BINARY
    ensures Carries(AllAsRead(MessageFrames(data, opCode, keys, first)), opCode, data)
    ensures forall f :: f in MessageFrames(data, opCode, keys, first) ==> f.Sendable()
    decreases |data|
  {
    var fs := MessageFrames(data, opCode, keys, first);
    if |data| > FRAME_SIZE {
      WrittenFramesCarry(data[FRAME_SIZE..], OP_CONTINUE, keys, first + 1);
      assert fs[1..] == MessageFrames(data[FRAME_SIZE..], OP_CONTINUE, keys, first + 1);
      assert AllAsRead(fs)[1..] == AllAsRead(fs[1..]);
    } else {
      assert fs[1..] == [] && AllAsRead(fs) == [fs[0].AsRead()] + [];
    }
  }

  /** Written frames are read back as they are, and nothing of what follows them is touched. */
  lemma {:induction false} WrittenFramesAreRead(fs: seq<SentFrame>, tail: seq<byte>)
    requires forall f :: f in fs ==> f.Sendable()
    ensures ReadAll(FramesBytes(fs) + tail) == AllAsRead(fs) + ReadAll(tail)
    decreases |fs|
  {
    hide ParseFrame, SentFrame.Bytes, SentFrame.Sendable;
    if fs == [] {
      assert FramesBytes(fs) + tail == tail && AllAsRead(fs) + ReadAll(tail) == ReadAll(tail);
    } else {
      assert fs[0] in fs;
      var rest := FramesBytes(fs[1..]) + tail;
      assert FramesBytes(fs) + tail == fs[0].Bytes() + rest;
      FrameRoundTrip(fs[0], rest);
      WrittenFramesAreRead(fs[1..], tail);
      assert AllAsRead(fs) + ReadAll(tail) == [fs[0].AsRead()] + (AllAsRead(fs[1..]) + ReadAll(tail));
    }
  }

  /**
   What one call of `process` makes of a text: it reads it to its end and leaves exactly `tail`, or it ends with the
   error.
   */
  predicate TextRead(codec: Codec, st: State, sofar: seq<byte>, all: seq<byte>, fits: bool, error: Event,
                     p: Processed, tail: seq<byte>) {
    && Arrived(codec, st, sofar, all, fits, error, Run(p.state, p.events))
    && (if fits && codec.decode(all, st.converter).state.Clean() then p.rest == tail && !p.timedOut
        else p.events != [] && p.events[|p.events| - 1] == error)
  }

  /** The call goes on behind a piece of the text. */
  lemma MoreIsRead(codec: Codec, st: State, sofar: seq<byte>, payload: seq<byte>, all: seq<byte>, fits: bool,
                   error: Event, p: Processed, tail: seq<byte>)
    requires IsStreamDecoder(codec) && TextRead(codec, st, sofar + payload, all, fits, error, p, tail)
    ensures TextRead(codec, st, sofar, all, fits, error,
                     p.(events := [TextFrame(Piece(codec, st, sofar, payload), false)] + p.events), tail)
  {
    hide IsStreamDecoder, Arrived;
    MorePieces(codec, st, sofar, payload, all, fits, error, Run(p.state, p.events));
  }

  /** The call ends with an error. */
  lemma RefusalIsRead(codec: Codec, st: State, sofar: seq<byte>, before: seq<byte>, rest: seq<byte>, fits: bool,
                      error: Event, p: Processed, tail: seq<byte>)
    requires IsStreamDecoder(codec) && error.Error? && p.events == [error]
    requires fits ==> codec.decode(before, st.converter).state.invalidChars != 0
    ensures TextRead(codec, st, sofar, before + rest, fits, error, p, tail)
  {
    OneError(error.code, error.reason);
    RefusedPiece(codec, st, sofar, before, rest, fits, error, Run(p.state, []));
    assert [error] + [] == [error];
    DecodedInPieces(codec, before, rest, st.converter);
  }

  /** The call ends with the last frame. */
  lemma LastIsRead(codec: Codec, st: State, sofar: seq<byte>, payload: seq<byte>, p: Processed, tail: seq<byte>)
    requires IsStreamDecoder(codec)
    requires var d := codec.decode(sofar + payload, st.converter);
      p == Processed(Between(st, d.state),
                     if Fails(d, true) then [INVALID_TEXT]
                     else [TextFrame(Piece(codec, st, sofar, payload), true), TextMessage(d.text)], tail, false)
    ensures TextRead(codec, st, sofar, sofar + payload, true, INVALID_TEXT, p, tail)
  {
    LastPiece(codec, st, sofar, payload);
  }

  lemma {:induction false} RestOfTextArrives(
      codec: Codec, st: State, started: bool, sofar: seq<byte>, data: seq<byte>, keys: nat -> Key, first: nat,
      tail: seq<byte>)
    requires IsStreamDecoder(codec) && st.Valid() && !st.fragmented && (!started ==> sofar == [])
    ensures var sent := MessageFrames(data, if started then OP_CONTINUE else OP_TEXT, keys, first);
      var fs := AllAsRead(sent);
      TextRead(codec, st, sofar, sofar + data, Fits(codec, st, sofar, fs), ErrorOf(codec, st, sofar, fs),
               ProcessSpec(codec, Before(codec, st, started, sofar), FramesBytes(sent) + tail), tail)
    decreases |data|
  {
    hide IsStreamDecoder, FrameStep, TextRead, State.Valid, ReceivingText, Between, Before, ProcessSpec;
    hide SentFrame.Bytes;
    var sent := MessageFrames(data, if started then OP_CONTINUE else OP_TEXT, keys, first);
    var fs, f, before := AllAsRead(sent), sent[0].AsRead(), Before(codec, st, started, sofar);
    var whole, rest := sofar + f.payload, data[|f.payload|..];
    var p := ProcessSpec(codec, before, FramesBytes(sent) + tail);
    assert whole + rest == sofar + data;
    FirstFrameIsHandled(codec, before, sent, tail);
    ReceivedText(codec, st, started, sofar, f);
    var d := codec.decode(whole, st.converter);
    if |codec.decode(sofar, st.converter).text| + |f.payload| > MAX_MESSAGE_SIZE {
      RefusalIsRead(codec, st, sofar, whole, rest, false, TOO_BIG, p, tail);
    } else if |data| <= FRAME_SIZE {
      assert sent[1..] == [] && fs == [f] && fs[1..] == [] && whole == sofar + data;
      assert FramesBytes(sent[1..]) + tail == tail;
      LastIsRead(codec, st, sofar, f.payload, p, tail);
    } else if d.state.invalidChars != 0 {
      RefusalIsRead(codec, st, sofar, whole, rest, Fits(codec, st, sofar, fs), INVALID_TEXT, p, tail);
    } else {
      assert sent[1..] == MessageFrames(rest, OP_CONTINUE, keys, first + 1);
      assert fs[1..] == AllAsRead(sent[1..]);
      RestOfTextArrives(codec, st, true, whole, rest, keys, first + 1, tail);
      BeforeStarted(codec, st, whole);
      MoreIsRead(codec, st, sofar, f.payload, sofar + data, Fits(codec, st, sofar, fs), ErrorOf(codec, st, sofar, fs),
                 ProcessSpec(codec, ReceivingText(codec, st, whole), FramesBytes(sent[1..]) + tail), tail);
    }
  }

  /**
   End to end for text: one call of `process` on the bytes written for a text emits exactly the decoded text as one
   message, without an error, and leaves exactly the bytes behind it, if and only if its frames fit and it decodes;
   otherwise it ends with error 1009 or 1007 and emits no message. A text within the limit always fits.
   */
  lemma TextEndToEnd(codec: Codec, st: State, data: seq<byte>, keys: nat -> Key, first: nat, tail: seq<byte>)
    requires IsStreamDecoder(codec) && st.Valid() && !st.fragmented
    ensures var sent := MessageFrames(data, OP_TEXT, keys, first);
      var fs, wire := AllAsRead(sent), FramesBytes(sent) + tail;
      && ReadAll(wire) == fs + ReadAll(tail)
      && TextRead(codec, st, [], data, Fits(codec, st, [], fs), ErrorOf(codec, st, [], fs),
                  ProcessSpec(codec, st, wire), tail)
      && (|data| <= MAX_MESSAGE_SIZE ==> Fits(codec, st, [], fs) && ErrorOf(codec, st, [], fs) == INVALID_TEXT)
  {
    hide IsStreamDecoder, TextRead, Carries, SentFrame.Sendable, ProcessSpec, Fits, ErrorOf;
    var sent := MessageFrames(data, OP_TEXT, keys, first);
    WrittenFramesCarry(data, OP_TEXT, keys, first);
    WrittenFramesAreRead(sent, tail);
    assert [] + data == data;
    RestOfTextArrives(codec, st, false, [], data, keys, first, tail);
    if |data| <= MAX_MESSAGE_SIZE && st.converter.Clean() {
      ShortTextFits(codec, st, AllAsRead(sent), OP_TEXT, [], data);
    }
  }
}
