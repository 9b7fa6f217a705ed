/** Two endpoints joined by a byte channel each way, and their closing handshake (RFC 6455, sections 5.5.1 and 7). */
module WebSocketClose {
  import opened WebSocketProtocol
  import opened WebSocketFrames
  import opened WebSocketWriter
  import opened WebSocketDataProcessor
  import opened WebSocketReassembly
  import opened WebSocketLayout

  /** What both endpoints share: the text codec of the library. */
  datatype Texts = Texts(codec: Codec, encode: Reason -> seq<byte>)

  /** One thing an endpoint writes in one go. */
  datatype Item = Message(data: seq<byte>, keys: nat -> Key, first: nat) | Control(frame: SentFrame)
  {
    function Bytes(): seq<byte> {
      match this
      case Message(data, keys, first) => FramesBytes(MessageFrames(data, OP_BINARY, keys, first))
      case Control(frame) => frame.Bytes()
    }

    predicate IsClose() { Control? && frame.opCode == OP_CLOSE }
  }

  function ItemsBytes(items: seq<Item>): seq<byte> {
    if items == [] then [] else items[0].Bytes() + ItemsBytes(items[1..])
  }

  lemma {:induction false} ItemsBytesAppend(items: seq<Item>, item: Item)
    ensures ItemsBytes(items + [item]) == ItemsBytes(items) + item.Bytes()
  {
    hide Item.Bytes;
    if items == [] {
      assert [item][1..] == [];
      assert [] + [item] == [item];
    } else {
      assert (items + [item])[1..] == items[1..] + [item];
      ItemsBytesAppend(items[1..], item);
    }
  }

  /** An endpoint: its handshake, its data processor and everything it has written. */
  datatype Endpoint = Endpoint(closing: Handshake, processor: State, written: seq<Item>)

  const OPENED := Endpoint(Handshake(false, false, CLOSE_NORMAL, NoReason), IDLE, [])

  /** The bytes on the way to an endpoint are those in `toA` and `toB`. */
  datatype World = World(a: Endpoint, b: Endpoint, toA: seq<byte>, toB: seq<byte>)

  const START := World(OPENED, OPENED, [], [])

  datatype Output = Output(endpoint: Endpoint, sent: seq<byte>)

  function Write(e: Endpoint, item: Item): Output {
    Output(e.(written := e.written + [item]), item.Bytes())
  }

  function DoClose(t: Texts, e: Endpoint, code: nat, reason: Reason, key: Key): Output {
    if e.closing.sent then Output(e, [])
    else Write(e.(closing := CloseOnce(e.closing, code, reason)), Control(CloseFrame(t.encode, code, reason, key)))
  }

  /** The slot connected to a signal of the data processor. */
  function React(t: Texts, e: Endpoint, event: Event, key: Key): Output {
    match event
    case PingReceived(data) => Write(e, Control(PongFrame(data, key)))
    case CloseReceived(code, reason) =>
      DoClose(t, e.(closing := e.closing.(received := true)), code, reason, key)
    case Error(code, reason) => DoClose(t, e, code, reason, key)
    case _ => Output(e, [])
  }

  function ReactAll(t: Texts, e: Endpoint, events: seq<Event>, key: Key): Output
    decreases |events|
  {
    if events == [] then Output(e, [])
    else
      var first := React(t, e, events[0], key);
      var later := ReactAll(t, first.endpoint, events[1..], key);
      Output(later.endpoint, first.sent + later.sent)
  }

  /** What the application or the network makes an endpoint do; `key` is the masking key drawn for an answer. */
  datatype Action =
    | AppClose(code: nat, reason: Reason, key: Key)
    | AppPing(payload: seq<byte>, key: Key)
    | AppSend(data: seq<byte>, keys: nat -> Key, first: nat)
    | Receive(key: Key)

  datatype Reply = Reply(endpoint: Endpoint, sent: seq<byte>, inbound: seq<byte>)

  function Act(t: Texts, e: Endpoint, action: Action, inbound: seq<byte>): Reply {
    match action
    case AppClose(code, reason, key) => var o := DoClose(t, e, code, reason, key); Reply(o.endpoint, o.sent, inbound)
    case AppPing(payload, key) =>
      var o := Write(e, Control(PingFrame(payload, key))); Reply(o.endpoint, o.sent, inbound)
    case AppSend(data, keys, first) =>
      var o := Write(e, Message(data, keys, first)); Reply(o.endpoint, o.sent, inbound)
    case Receive(key) =>
      if inbound == [] then Reply(e, [], inbound)
      else
        var p := ProcessSpec(t.codec, e.processor, inbound);
        var o := ReactAll(t, e.(processor := p.state), p.events, key);
        Reply(o.endpoint, o.sent, p.rest)
  }

  datatype Move = Move(byA: bool, action: Action)

  function Next(t: Texts, w: World, m: Move): World {
    if m.byA then
      var r := Act(t, w.a, m.action, w.toA);
      World(r.endpoint, w.b, r.inbound, w.toB + r.sent)
    else
      var r := Act(t, w.b, m.action, w.toB);
      World(w.a, r.endpoint, w.toA + r.sent, r.inbound)
  }

  function Play(t: Texts, w: World, moves: seq<Move>): World
    decreases |moves|
  {
    if moves == [] then w else Play(t, Next(t, w, moves[0]), moves[1..])
  }

  // ---------- What an endpoint answers, as its peer reads it ----------

  /** What one call of `process` makes of a control frame, inside a message or not. */
  lemma ControlFrameEvent(codec: Codec, st: State, s: seq<byte>)
    requires ParseFrame(s).frame.valid && ParseFrame(s).frame.opCode >= 0x8
    ensures var f := ParseFrame(s).frame;
      && |f.payload| <= 125 && f.opCode in {0x8, 0x9, 0xA}
      && ProcessSpec(codec, st, s)
           == Processed(st, [match f.opCode
                             case 0x8 => CloseEvent(codec, f.payload)
                             case 0x9 => PingReceived(f.payload)
                             case _ => PongReceived(f.payload)], ParseFrame(s).rest, false)
  {
    hide ParseFrame, PayloadLaidOut, CloseEvent, ProcessSpec;
    FrameOnTheWire(s, ParseFrame(s));
    ProcessSpecStep(codec, st, s);
  }

  lemma ControlFrameIsReadBy(codec: Codec, st: State, f: SentFrame, tail: seq<byte>)
    requires f.Sendable() && f.opCode >= 0x8
    ensures ProcessSpec(codec, st, f.Bytes() + tail)
         == Processed(st, [match f.opCode
                           case 0x8 => CloseEvent(codec, f.payload)
                           case 0x9 => PingReceived(f.payload)
                           case _ => PongReceived(f.payload)], tail, false)
  {
    hide ParseFrame, CloseEvent, ProcessSpec, SentFrame.Bytes;
    FrameRoundTrip(f, tail);
    ControlFrameEvent(codec, st, f.Bytes() + tail);
  }

  /** The first 125 bytes of what an application passes to `ping` reach the peer, whatever the peer is reading. */
  lemma PingArrives(t: Texts, e: Endpoint, payload: seq<byte>, key: Key, inbound: seq<byte>, st: State, tail: seq<byte>)
    ensures var r := Act(t, e, AppPing(payload, key), inbound);
      && r.inbound == inbound
      && ProcessSpec(t.codec, st, r.sent + tail)
           == Processed(st, [PingReceived(if |payload| <= 125 then payload else payload[..125])], tail, false)
  {
    hide SentFrame.Bytes, ProcessSpec;
    ControlFrameIsReadBy(t.codec, st, PingFrame(payload, key), tail);
  }

  /**
   An endpoint that reads a ping, inside a message or not, answers at once with bytes that make the processor of its
   peer emit a pong with the payload of the ping; nothing else of the endpoint changes.
   */
  lemma PingIsAnswered(t: Texts, e: Endpoint, s: seq<byte>, key: Key, st: State, tail: seq<byte>)
    requires ParseFrame(s).frame.valid && ParseFrame(s).frame.opCode == 0x9
    ensures var r := Act(t, e, Receive(key), s);
      && r.inbound == ParseFrame(s).rest && r.endpoint.closing == e.closing && r.endpoint.processor == e.processor
      && ProcessSpec(t.codec, st, r.sent + tail)
           == Processed(st, [PongReceived(ParseFrame(s).frame.payload)], tail, false)
  {
    hide ParseFrame, SentFrame.Bytes, ProcessSpec;
    var payload := ParseFrame(s).frame.payload;
    ControlFrameEvent(t.codec, e.processor, s);
    var events := [PingReceived(payload)];
    assert events[1..] == [];
    var answer := PongFrame(payload, key);
    assert s != [] by { FrameOnTheWire(s, ParseFrame(s)); }
    var e' := e.(processor := e.processor);
    assert ReactAll(t, e', events, key)
        == Output(e'.(written := e'.written + [Control(answer)]), answer.Bytes() + []);
    assert answer.Bytes() + [] == answer.Bytes();
    ControlFrameIsReadBy(t.codec, st, answer, tail);
  }

  /** What a close frame says, in numbers: its code stands in the first two bytes of the payload. */
  lemma ClosePayloads(codec: Codec, payload: seq<byte>)
    ensures CloseEvent(codec, payload) ==
      if payload == [] then CloseReceived(1000, NoReason)
      else if |payload| == 1 then CloseReceived(1002, ClosePayloadTooSmall)
      else
        var code := Number16(payload);
        if !(1000 <= code <= 1003 || 1007 <= code <= 1011 || 3000 <= code <= 4999) then
          CloseReceived(1002, InvalidCloseCode(1002))
        else if |payload| == 2 then CloseReceived(code, NoReason)
        else
          match codec.decodeReason(payload[2..])
          case InvalidText => CloseReceived(1007, InvalidUtf8)
          case ValidText(text) => CloseReceived(code, if text == [] then NoReason else Peer(text))
  {
    hide FromBigEndian, Number16;
    if |payload| >= 2 {
      ParsedNumbers(payload[..2]);
      Prefix16(payload);
      ValidCloseCodes(FromBigEndian(payload[..2]));
    }
  }

  /** Code and reason in a close frame, of which the text of the reason has room for 123 bytes. */
  predicate SaysClose(bytes: seq<byte>, t: Texts, code: nat, reason: Reason) {
    var text := if reason == NoReason then [] else t.encode(reason);
    code < 0x1_0000 && |text| <= 123 ==>
      && ParseFrame(bytes).frame.valid && ParseFrame(bytes).frame.opCode == 0x8 && ParseFrame(bytes).rest == []
      && ParseFrame(bytes).frame.payload == [code / 0x100, code % 0x100] + text
  }

  lemma CloseFrameSays(t: Texts, code: nat, reason: Reason, key: Key)
    ensures SaysClose(CloseFrame(t.encode, code, reason, key).Bytes(), t, code, reason)
  {
    hide ParseFrame, SentFrame.Bytes;
    var f := CloseFrame(t.encode, code, reason, key);
    if code < 0x1_0000 && f.Sendable() {
      FrameRoundTrip(f, []);
      assert f.Bytes() + [] == f.Bytes();
      assert ToBigEndian(code / 0x100, 1) == ToBigEndian(code / 0x1_0000, 0) + [code / 0x100];
    }
  }

  /** Bytes that are no valid frame make an endpoint close with the code of their fault, and say so to its peer. */
  lemma FaultIsAnswered(t: Texts, e: Endpoint, s: seq<byte>, key: Key)
    requires s != [] && !ParseFrame(s).frame.valid && !e.closing.sent
    ensures var r := Act(t, e, Receive(key), s); var reason := ParseFrame(s).frame.closeReason;
      && Settled(r.endpoint, Refusal(s), reason) && r.inbound == ParseFrame(s).rest
      && SaysClose(r.sent, t, Refusal(s), reason)
  {
    hide ParseFrame, SentFrame.Bytes, ProcessSpec, Refusal, SaysClose;
    var f := ParseFrame(s).frame;
    RefusedWith(s);
    ProcessSpecStep(t.codec, e.processor, s);
    AnswerWithClose(t, e.(processor := e.processor.Cleared()), Error(f.closeCode, f.closeReason), key);
  }

  /** A close frame is answered with the code and reason it has been understood to carry. */
  lemma CloseIsAnswered(t: Texts, e: Endpoint, s: seq<byte>, key: Key)
    requires ParseFrame(s).frame.valid && ParseFrame(s).frame.opCode == 0x8 && !e.closing.sent
    ensures var r := Act(t, e, Receive(key), s); var event := CloseEvent(t.codec, ParseFrame(s).frame.payload);
      && event.CloseReceived? && r.endpoint.closing == Handshake(true, true, event.code, event.reason)
      && r.inbound == ParseFrame(s).rest && SaysClose(r.sent, t, event.code, event.reason)
  {
    hide ParseFrame, SentFrame.Bytes, ProcessSpec, CloseEvent, SaysClose;
    ControlFrameEvent(t.codec, e.processor, s);
    assert s != [] by { FrameOnTheWire(s, ParseFrame(s)); }
    var event := CloseEvent(t.codec, ParseFrame(s).frame.payload);
    CloseEventIsClose(t.codec, ParseFrame(s).frame.payload);
    AnswerWithClose(t, e, event, key);
  }

  lemma AnswerWithClose(t: Texts, e: Endpoint, event: Event, key: Key)
    requires (event.Error? || event.CloseReceived?) && !e.closing.sent
    ensures var o := ReactAll(t, e, [event], key);
      && o.endpoint.closing == Handshake(true, event.CloseReceived? || e.closing.received, event.code, event.reason)
      && SaysClose(o.sent, t, event.code, event.reason)
  {
    hide SaysClose, SentFrame.Bytes;
    assert [event][1..] == [];
    var bytes := CloseFrame(t.encode, event.code, event.reason, key).Bytes();
    assert bytes + [] == bytes;
    CloseFrameSays(t, event.code, event.reason, key);
  }

  /** An endpoint that has sent its close frame answers no further close frame and no fault. */
  lemma NoSecondClose(t: Texts, e: Endpoint, event: Event, key: Key)
    requires (event.Error? || event.CloseReceived?) && e.closing.sent
    ensures ReactAll(t, e, [event], key).sent == []
  {
    assert [event][1..] == [];
  }

  // ---------- At most one close frame ----------

  function CloseFrames(items: seq<Item>): nat {
    if items == [] then 0 else (if items[0].IsClose() then 1 else 0) + CloseFrames(items[1..])
  }

  lemma {:induction false} CloseFramesAppend(items: seq<Item>, item: Item)
    ensures CloseFrames(items + [item]) == CloseFrames(items) + if item.IsClose() then 1 else 0
  {
    if items == [] {
      assert [item][1..] == [] && [] + [item] == [item];
    } else {
      assert (items + [item])[1..] == items[1..] + [item];
      CloseFramesAppend(items[1..], item);
    }
  }

  predicate ClosedOnce(e: Endpoint) {
    CloseFrames(e.written) == if e.closing.sent then 1 else 0
  }

  lemma ReactClosesOnce(t: Texts, e: Endpoint, event: Event, key: Key)
    requires ClosedOnce(e)
    ensures ClosedOnce(React(t, e, event, key).endpoint)
  {
    forall item
      ensures CloseFrames(e.written + [item]) == CloseFrames(e.written) + if item.IsClose() then 1 else 0
    {
      CloseFramesAppend(e.written, item);
    }
  }

  lemma {:induction false} ReactAllClosesOnce(t: Texts, e: Endpoint, events: seq<Event>, key: Key)
    requires ClosedOnce(e)
    ensures ClosedOnce(ReactAll(t, e, events, key).endpoint)
    decreases |events|
  {
    hide ClosedOnce, React;
    if events != [] {
      ReactClosesOnce(t, e, events[0], key);
      ReactAllClosesOnce(t, React(t, e, events[0], key).endpoint, events[1..], key);
    }
  }

  lemma ActClosesOnce(t: Texts, e: Endpoint, action: Action, inbound: seq<byte>)
    requires ClosedOnce(e)
    ensures ClosedOnce(Act(t, e, action, inbound).endpoint)
  {
    hide ProcessSpec, ReactAll;
    match action {
      case Receive(key) =>
        var p := ProcessSpec(t.codec, e.processor, inbound);
        ReactAllClosesOnce(t, e.(processor := p.state), p.events, key);
      case _ =>
        forall item
          ensures CloseFrames(e.written + [item]) == CloseFrames(e.written) + if item.IsClose() then 1 else 0
        {
          CloseFramesAppend(e.written, item);
        }
    }
  }

  /** In every run, whatever the two applications do, each endpoint writes at most one close frame. */
  lemma {:induction false} AtMostOneCloseFrame(t: Texts, w: World, moves: seq<Move>)
    requires ClosedOnce(w.a) && ClosedOnce(w.b)
    ensures var w' := Play(t, w, moves);
      ClosedOnce(w'.a) && ClosedOnce(w'.b) && CloseFrames(w'.a.written) <= 1 && CloseFrames(w'.b.written) <= 1
    decreases |moves|
  {
    hide Act;
    if moves != [] {
      var m := moves[0];
      if m.byA {
        ActClosesOnce(t, w.a, m.action, w.toA);
      } else {
        ActClosesOnce(t, w.b, m.action, w.toB);
      }
      AtMostOneCloseFrame(t, Next(t, w, m), moves[1..]);
    }
  }

  // ---------- Settled for good ----------

  /** The code and reason an endpoint has closed with. */
  predicate Settled(e: Endpoint, code: nat, reason: Reason) {
    e.closing.sent && e.closing.code == code && e.closing.reason == reason
  }

  lemma {:induction false} ReactAllKeepsSettled(t: Texts, e: Endpoint, events: seq<Event>, key: Key)
    requires e.closing.sent
    ensures Settled(ReactAll(t, e, events, key).endpoint, e.closing.code, e.closing.reason)
    decreases |events|
  {
    if events != [] {
      ReactAllKeepsSettled(t, React(t, e, events[0], key).endpoint, events[1..], key);
    }
  }

  /** Once an endpoint has sent its close frame nothing changes its close code or reason. */
  lemma ActKeepsSettled(t: Texts, e: Endpoint, action: Action, inbound: seq<byte>)
    requires e.closing.sent
    ensures Settled(Act(t, e, action, inbound).endpoint, e.closing.code, e.closing.reason)
  {
    hide ProcessSpec, ReactAll;
    if action.Receive? {
      var p := ProcessSpec(t.codec, e.processor, inbound);
      ReactAllKeepsSettled(t, e.(processor := p.state), p.events, action.key);
    }
  }

  // ---------- One side closes ----------

  /** An item that cannot make its reader close. */
  predicate Harmless(item: Item) {
    match item
    case Message(data, _, _) => |data| <= MAX_MESSAGE_SIZE
    case Control(frame) => frame.Sendable() && (frame.opCode == OP_PING || frame.opCode == OP_PONG)
  }

  predicate AllHarmless(items: seq<Item>) {
    forall i :: 0 <= i < |items| ==> Harmless(items[i])
  }

  lemma {:induction false} FrameEventsAreBinary(fs: seq<SentFrame>)
    ensures forall e :: e in FrameEvents(fs) ==> e.BinaryFrame?
  {
    if fs != [] {
      FrameEventsAreBinary(fs[1..]);
    }
  }

  lemma ControlFrameIsRead(codec: Codec, f: SentFrame, tail: seq<byte>)
    requires f.Sendable() && IsControlOpCode(f.opCode)
    ensures ProcessSpec(codec, IDLE, f.Bytes() + tail)
         == Processed(IDLE, ControlStep(codec, IDLE, f.AsRead()).events, tail, false)
  {
    hide ParseFrame, ControlStep, DataStep, SentFrame.Bytes;
    FrameRoundTrip(f, tail);
    ProcessSpecStep(codec, IDLE, f.Bytes() + tail);
    assert FrameStep(codec, IDLE, f.AsRead()) == ControlStep(codec, IDLE, f.AsRead());
    ControlStepIsDone(codec, f.AsRead());
  }

  lemma ControlStepIsDone(codec: Codec, f: FrameData)
    requires f.IsControl()
    ensures ControlStep(codec, IDLE, f).done && ControlStep(codec, IDLE, f).state == IDLE
  {
  }

  /** What `e` writes in answer to reading a harmless item. */
  function Answer(item: Item, key: Key): seq<Item> {
    if item.Control? && item.frame.opCode == OP_PING then [Control(PongFrame(item.frame.payload, key))] else []
  }

  lemma HarmlessItemIsRead(t: Texts, e: Endpoint, item: Item, tail: seq<byte>, key: Key)
    requires Harmless(item) && e.processor == IDLE
    ensures Act(t, e, Receive(key), item.Bytes() + tail)
         == Reply(e.(written := e.written + Answer(item, key)), ItemsBytes(Answer(item, key)), tail)
    ensures AllHarmless(Answer(item, key)) && item.Bytes() != []
  {
    hide SentFrame.Bytes, ProcessSpec;
    match item {
      case Message(data, keys, first) =>
        var fs := MessageFrames(data, OP_BINARY, keys, first);
        EndToEnd(t.codec, IDLE, data, keys, first, tail);
        FrameEventsAreBinary(fs);
        IgnoredEvents(t, e, FrameEvents(fs) + [BinaryMessage(data)], key);
        BytesNotEmpty(fs[0]);
        assert e.(processor := IDLE) == e;
        assert e.written + [] == e.written;
      case Control(frame) =>
        ControlFrameIsRead(t.codec, frame, tail);
        BytesNotEmpty(frame);
        ControlAnswer(t, e, frame, key);
    }
  }

  lemma ControlAnswer(t: Texts, e: Endpoint, f: SentFrame, key: Key)
    requires Harmless(Control(f)) && e.processor == IDLE
    ensures var answer := Answer(Control(f), key);
      ReactAll(t, e.(processor := IDLE), ControlStep(t.codec, IDLE, f.AsRead()).events, key)
        == Output(e.(written := e.written + answer), ItemsBytes(answer))
    ensures AllHarmless(Answer(Control(f), key))
  {
    hide SentFrame.Bytes;
    var events := ControlStep(t.codec, IDLE, f.AsRead()).events;
    assert events == [if f.opCode == OP_PING then PingReceived(f.payload) else PongReceived(f.payload)];
    assert events[1..] == [];
    assert e.written + [] == e.written;
    assert e.(processor := IDLE) == e;
  }

  lemma BytesNotEmpty(f: SentFrame)
    requires |f.payload| <= MAX_LENGTH
    ensures f.Bytes() != []
  {
  }

  lemma {:induction false} IgnoredEvents(t: Texts, e: Endpoint, events: seq<Event>, key: Key)
    requires forall i :: 0 <= i < |events| ==> events[i].BinaryFrame? || events[i].BinaryMessage?
    ensures ReactAll(t, e, events, key) == Output(e, [])
    decreases |events|
  {
    if events != [] {
      IgnoredEvents(t, e, events[1..], key);
    }
  }

  /** The code and reason the reader of a close frame ends up with. */
  function ReadBack(t: Texts, code: nat, reason: Reason): (nat, Reason) {
    var payload := ClosePayload(t.encode, code, reason);
    if |payload| > 125 then (CLOSE_PROTOCOL_ERROR, ControlFrameTooLarge)
    else
      var e := CloseEvent(t.codec, payload);
      (e.code, e.reason)
  }

  lemma TooLongControlFrame(f: SentFrame, tail: seq<byte>)
    requires IsControlOpCode(f.opCode) && !IsOpCodeReserved(f.opCode) && 125 < |f.payload| <= MAX_LENGTH
    ensures ParseFrame(f.Bytes() + tail).frame == Failed(CLOSE_PROTOCOL_ERROR, ControlFrameTooLarge)
  {
    hide ParseLength, HeaderOf, ExtendedLength, KeyBytes, Masked;
    var wire := f.Bytes() + tail;
    var h := CLEARED.(fin := f.last, opCode := f.opCode, length := LengthCode(|f.payload|));
    HeaderBits(f.opCode, f.last, LengthCode(|f.payload|), f.key != 0);
    assert HeaderOf(wire[0], wire[1]) == h;
    assert HeaderFault(h) == ControlFrameTooLarge;
  }

  lemma CloseFrameIsRead(t: Texts, e: Endpoint, code: nat, reason: Reason, key: Key, tail: seq<byte>, answerKey: Key)
    requires !e.closing.sent && e.processor == IDLE && |ClosePayload(t.encode, code, reason)| <= MAX_LENGTH
    ensures var f := CloseFrame(t.encode, code, reason, key);
      var r := Act(t, e, Receive(answerKey), f.Bytes() + tail);
      var (code', reason') := ReadBack(t, code, reason);
      Settled(r.endpoint, code', reason')
  {
    hide SentFrame.Bytes, ProcessSpec, ParseFrame, CloseEvent;
    var f := CloseFrame(t.encode, code, reason, key);
    BytesNotEmpty(f);
    if |f.payload| <= 125 {
      ControlFrameIsRead(t.codec, f, tail);
      assert ControlStep(t.codec, IDLE, f.AsRead()).events == [CloseEvent(t.codec, f.payload)];
      CloseEventIsClose(t.codec, f.payload);
      ReactToOne(t, e.(processor := IDLE), CloseEvent(t.codec, f.payload), answerKey);
    } else {
      TooLongControlFrame(f, tail);
      ProcessSpecStep(t.codec, IDLE, f.Bytes() + tail);
      ReactToOne(t, e.(processor := IDLE.Cleared()), Error(CLOSE_PROTOCOL_ERROR, ControlFrameTooLarge), answerKey);
    }
  }

  lemma ReactToOne(t: Texts, e: Endpoint, event: Event, key: Key)
    ensures ReactAll(t, e, [event], key).endpoint == React(t, e, event, key).endpoint
  {
    assert [event][1..] == [];
  }

  lemma CloseEventIsClose(codec: Codec, payload: seq<byte>)
    ensures CloseEvent(codec, payload).CloseReceived?
  {
  }

  /** What the two applications may do here: only A closes, and messages and payloads fit their size types. */
  predicate OnlyACloses(t: Texts, m: Move) {
    match m.action
    case AppClose(code, reason, _) => m.byA && |ClosePayload(t.encode, code, reason)| <= MAX_LENGTH
    case AppSend(data, _, _) => |data| <= MAX_MESSAGE_SIZE
    case _ => true
  }

  ghost predicate Carrying(bytes: seq<byte>, items: seq<Item>) {
    AllHarmless(items) && bytes == ItemsBytes(items)
  }

  /** Harmless items, then a close frame, then anything. */
  ghost predicate CarryingClose(t: Texts, bytes: seq<byte>, code: nat, reason: Reason,
                                items: seq<Item>, key: Key, behind: seq<byte>) {
    AllHarmless(items) && bytes == ItemsBytes(items) + CloseFrame(t.encode, code, reason, key).Bytes() + behind
  }

  ghost predicate BeforeClose(w: World) {
    && !w.a.closing.sent && !w.b.closing.sent && w.a.processor == IDLE && w.b.processor == IDLE
    && (exists items :: Carrying(w.toA, items))
    && (exists items :: Carrying(w.toB, items))
  }

  ghost predicate AfterClose(t: Texts, w: World) {
    var code, reason := w.a.closing.code, w.a.closing.reason;
    && w.a.closing.sent && |ClosePayload(t.encode, code, reason)| <= MAX_LENGTH
    && if w.b.closing.sent then
         Settled(w.b, ReadBack(t, code, reason).0, ReadBack(t, code, reason).1)
       else
         && w.b.processor == IDLE
         && exists items, key, behind :: CarryingClose(t, w.toB, code, reason, items, key, behind)
  }

  lemma CarryMore(bytes: seq<byte>, items: seq<Item>, item: Item)
    requires Carrying(bytes, items) && Harmless(item)
    ensures Carrying(bytes + item.Bytes(), items + [item])
  {
    ItemsBytesAppend(items, item);
  }

  lemma CarryNothing(bytes: seq<byte>, items: seq<Item>)
    requires Carrying(bytes, items)
    ensures Carrying(bytes + [], items)
  {
    assert bytes + [] == bytes;
  }

  /** While nobody has closed, whatever one endpoint does leaves harmless items in both directions. */
  lemma ActBeforeClose(t: Texts, e: Endpoint, action: Action, inbound: seq<byte>, outbound: seq<byte>,
                       inItems: seq<Item>, outItems: seq<Item>)
    requires !e.closing.sent && e.processor == IDLE && !action.AppClose?
    requires action.AppSend? ==> |action.data| <= MAX_MESSAGE_SIZE
    requires Carrying(inbound, inItems) && Carrying(outbound, outItems)
    ensures var r := Act(t, e, action, inbound);
      && r.endpoint.closing == e.closing && r.endpoint.processor == IDLE
      && (exists items :: Carrying(r.inbound, items))
      && (exists items :: Carrying(outbound + r.sent, items))
  {
    hide SentFrame.Bytes, Item.Bytes, Harmless, Answer, MessageFrames;
    match action {
      case Receive(key) =>
        if inItems == [] {
          CarryNothing(outbound, outItems);
        } else {
          var tail := ItemsBytes(inItems[1..]);
          HarmlessItemIsRead(t, e, inItems[0], tail, key);
          hide Act;
          var answer := Answer(inItems[0], key);
          assert Carrying(tail, inItems[1..]);
          assert Act(t, e, action, inbound).sent == ItemsBytes(answer);
          CarryAnswer(outbound, outItems, inItems[0], key);
        }
      case AppPing(payload, key) =>
        var item := Control(PingFrame(payload, key));
        assert Harmless(item) by { PingIsHarmless(payload, key); }
        CarryMore(outbound, outItems, item);
      case AppSend(data, keys, first) =>
        var item := Message(data, keys, first);
        assert Harmless(item) by { MessageIsHarmless(item); }
        CarryMore(outbound, outItems, item);
    }
  }

  lemma PingIsHarmless(payload: seq<byte>, key: Key)
    ensures Harmless(Control(PingFrame(payload, key)))
  {
  }

  lemma MessageIsHarmless(item: Item)
    requires item.Message? && |item.data| <= MAX_MESSAGE_SIZE
    ensures Harmless(item)
  {
  }

  lemma CarryAnswer(outbound: seq<byte>, outItems: seq<Item>, item: Item, key: Key)
    requires Carrying(outbound, outItems) && AllHarmless(Answer(item, key))
    ensures exists items :: Carrying(outbound + ItemsBytes(Answer(item, key)), items)
  {
    hide Item.Bytes, Harmless;
    var answer := Answer(item, key);
    if answer == [] {
      assert ItemsBytes(answer) == [];
      CarryNothing(outbound, outItems);
    } else {
      assert answer == [answer[0]] && answer[1..] == [];
      assert ItemsBytes(answer) == answer[0].Bytes() + [] == answer[0].Bytes();
      CarryMore(outbound, outItems, answer[0]);
    }
  }

  lemma MoveBeforeClose(t: Texts, w: World, m: Move)
    requires BeforeClose(w) && OnlyACloses(t, m)
    ensures BeforeClose(Next(t, w, m)) || AfterClose(t, Next(t, w, m))
  {
    hide Act, Carrying;
    var forA, forB :| Carrying(w.toA, forA) && Carrying(w.toB, forB);
    if m.action.AppClose? {
      FirstClose(t, w, m.action, forB);
    } else if m.byA {
      ActBeforeClose(t, w.a, m.action, w.toA, w.toB, forA, forB);
    } else {
      ActBeforeClose(t, w.b, m.action, w.toB, w.toA, forB, forA);
    }
  }

  lemma FirstClose(t: Texts, w: World, action: Action, forB: seq<Item>)
    requires BeforeClose(w) && action.AppClose? && OnlyACloses(t, Move(true, action)) && Carrying(w.toB, forB)
    ensures AfterClose(t, Next(t, w, Move(true, action)))
  {
    hide SentFrame.Bytes, ItemsBytes;
    var w' := Next(t, w, Move(true, action));
    var close := CloseFrame(t.encode, action.code, action.reason, action.key).Bytes();
    assert w'.toB == ItemsBytes(forB) + close + [];
    assert CarryingClose(t, w'.toB, action.code, action.reason, forB, action.key, []);
  }

  lemma MoveAfterClose(t: Texts, w: World, m: Move)
    requires AfterClose(t, w) && OnlyACloses(t, m)
    ensures AfterClose(t, Next(t, w, m))
    ensures Next(t, w, m).a.closing.code == w.a.closing.code && Next(t, w, m).a.closing.reason == w.a.closing.reason
  {
    hide Act, ReadBack, SentFrame.Bytes, ItemsBytes, ClosePayload;
    var code, reason := w.a.closing.code, w.a.closing.reason;
    if m.byA {
      ActKeepsSettled(t, w.a, m.action, w.toA);
      if !w.b.closing.sent {
        var items, key, behind :| CarryingClose(t, w.toB, code, reason, items, key, behind);
        var sent := Act(t, w.a, m.action, w.toA).sent;
        var close := CloseFrame(t.encode, code, reason, key).Bytes();
        assert ItemsBytes(items) + close + behind + sent == ItemsBytes(items) + close + (behind + sent);
        assert CarryingClose(t, w.toB + sent, code, reason, items, key, behind + sent);
      }
    } else if w.b.closing.sent {
      ActKeepsSettled(t, w.b, m.action, w.toB);
    } else {
      var items, key, behind :| CarryingClose(t, w.toB, code, reason, items, key, behind);
      BReads(t, w.b, m.action, w.toB, code, reason, items, key, behind);
    }
  }

  /** The endpoint that has not closed reads the harmless items one by one, then the close frame. */
  lemma BReads(t: Texts, e: Endpoint, action: Action, inbound: seq<byte>, code: nat, reason: Reason,
               items: seq<Item>, key: Key, behind: seq<byte>)
    requires !e.closing.sent && e.processor == IDLE && !action.AppClose?
    requires |ClosePayload(t.encode, code, reason)| <= MAX_LENGTH
    requires CarryingClose(t, inbound, code, reason, items, key, behind)
    ensures var r := Act(t, e, action, inbound);
      if r.endpoint.closing.sent then
        Settled(r.endpoint, ReadBack(t, code, reason).0, ReadBack(t, code, reason).1)
      else
        && r.endpoint.processor == IDLE
        && exists items, key, behind :: CarryingClose(t, r.inbound, code, reason, items, key, behind)
  {
    hide SentFrame.Bytes, Item.Bytes, ReadBack, ClosePayload, Harmless, Answer, ProcessSpec, ReactAll;
    if action.Receive? {
      var close := CloseFrame(t.encode, code, reason, key).Bytes();
      if items == [] {
        assert inbound == close + behind;
        CloseFrameIsRead(t, e, code, reason, key, behind, action.key);
      } else {
        var tail := ItemsBytes(items[1..]) + close + behind;
        assert inbound == items[0].Bytes() + tail;
        HarmlessItemIsRead(t, e, items[0], tail, action.key);
        hide Act;
        assert CarryingClose(t, tail, code, reason, items[1..], key, behind);
      }
    }
  }

  /**
   When only A's application closes, with any code and reason, then in every run, at every moment: once the
   other endpoint has closed, it holds what `ReadBack` says of A's code and reason.
   */
  lemma {:induction false} OneSidedClose(t: Texts, w: World, moves: seq<Move>)
    requires BeforeClose(w) || AfterClose(t, w)
    requires forall i :: 0 <= i < |moves| ==> OnlyACloses(t, moves[i])
    ensures BeforeClose(Play(t, w, moves)) || AfterClose(t, Play(t, w, moves))
    decreases |moves|
  {
    hide Next, BeforeClose, AfterClose, OnlyACloses;
    if moves != [] {
      assert OnlyACloses(t, moves[0]);
      if BeforeClose(w) {
        MoveBeforeClose(t, w, moves[0]);
      } else {
        MoveAfterClose(t, w, moves[0]);
      }
      OneSidedClose(t, Next(t, w, moves[0]), moves[1..]);
    }
  }

  /** What an application can pass to `close`; an empty text is no reason. */
  predicate FromApplication(code: nat, reason: Reason) {
    code < 0x1_0000 && (reason == NoReason || (reason.Peer? && reason.text != []))
  }

  /** A close code and reason that a close frame can carry. */
  predicate Carriable(t: Texts, code: nat, reason: Reason) {
    && IsCloseCodeValid(code)
    && (reason.Peer? ==>
          && 0 < |t.encode(reason)| <= 123
          && t.codec.decodeReason(t.encode(reason)) == ValidText(reason.text))
  }

  lemma ReadBackExactly(t: Texts, code: nat, reason: Reason)
    requires FromApplication(code, reason)
    ensures ReadBack(t, code, reason) == (code, reason) <==> Carriable(t, code, reason)
  {
    hide ToBigEndian, FromBigEndian;
    Pow256Values();
    BigEndianRoundTrip(code, 2);
    var payload := ClosePayload(t.encode, code, reason);
    assert payload[..2] == ToBigEndian(code, 2);
    assert reason.Peer? ==> payload[2..] == t.encode(reason);
  }

  /**
   The closing handshake from the start: if only A's application closes, then once both endpoints have sent
   their close frames they hold the same code and reason, if and only if a close frame can carry them.
   */
  lemma BothEndsAgree(t: Texts, moves: seq<Move>)
    requires forall i :: 0 <= i < |moves| ==> OnlyACloses(t, moves[i])
    ensures var w := Play(t, START, moves); var a, b := w.a.closing, w.b.closing;
      && (b.sent ==> a.sent)
      && (b.sent && FromApplication(a.code, a.reason) ==>
            ((b.code == a.code && b.reason == a.reason) <==> Carriable(t, a.code, a.reason)))
  {
    assert Carrying([], []);
    OneSidedClose(t, START, moves);
    var w := Play(t, START, moves);
    hide Carrying, CarryingClose, Play, ReadBack, Carriable;
    var code, reason := w.a.closing.code, w.a.closing.reason;
    if FromApplication(code, reason) {
      ReadBackExactly(t, code, reason);
    }
  }
}
