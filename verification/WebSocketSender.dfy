/** The sending side of a web socket, and what a receiver makes of the bytes it hands to its socket. */
module WebSocketSender {
  import opened WebSocketProtocol
  import opened WebSocketFrames
  import opened WebSocketWriter
  import opened WebSocketDataProcessor
  import opened WebSocketReassembly
  import opened WebSocketText
  import opened WebSocketLayout

  /** The effective keys: 0 when frames are not masked. */
  function EffectiveKeys(nextMask: nat -> Key, mustMask: bool): nat -> Key {
    (i: nat) => if mustMask then nextMask(i) else 0
  }

  // ---------- What a receiver makes of the bytes ----------

  /** Whatever follows, `wire` is read as one final frame with these contents, masked if the key is not 0. */
  ghost predicate ReadsAsFrame(wire: seq<byte>, opCode: OpCode, payload: seq<byte>, key: Key) {
    && |wire| >= 2 && (wire[1] >= 0x80 <==> key != 0)
    && forall tail :: IsReadAs(ParseFrame(wire + tail), opCode, payload, key, tail)
  }

  predicate IsReadAs(o: Outcome, opCode: OpCode, payload: seq<byte>, key: Key, tail: seq<byte>) {
    && o.frame.valid && o.frame.fin && o.frame.opCode == opCode && o.frame.payload == payload && o.frame.mask == key
    && o.rest == tail
  }

  /** The frames in `wire`, without the read that times out behind them. */
  function FramesIn(wire: seq<byte>): seq<FrameData> {
    ReadAll(wire)[..|ReadAll(wire)| - 1]
  }

  /** Frame `i` of the message `data`, of which the first frame has opcode `opCode`, cut every 524288 bytes. */
  predicate IsFragment(f: FrameData, i: nat, count: nat, data: seq<byte>, opCode: OpCode, key: Key) {
    var from := i * 524288;
    && f.valid && f.opCode == (if i == 0 then opCode else 0x0) && f.fin == (i == count - 1) && f.mask == key
    && from <= |data|
    && (if i == count - 1 then f.payload == data[from..]
        else from + 524288 <= |data| && f.payload == data[from..from + 524288])
  }

  /** The key of frame number `i`, or 0 for a frame that is not masked. */
  function KeyOf(mustMask: bool, nextMask: nat -> Key, i: nat): Key {
    if mustMask then nextMask(i) else 0
  }

  ghost predicate ReadsAsFragments(wire: seq<byte>, data: seq<byte>, opCode: OpCode, mustMask: bool,
                                   nextMask: nat -> Key, first: nat) {
    var fs := FramesIn(wire);
    && |fs| == (if data == [] then 1 else (|data| + 524287) / 524288)
    && forall i :: 0 <= i < |fs| ==> IsFragment(fs[i], i, |fs|, data, opCode, KeyOf(mustMask, nextMask, first + i))
  }

  /**
   Whatever receiver between messages reads `wire`, and whatever follows: one call of `process` emits the binary message
   and nothing but its frames in front of it, and leaves exactly what follows; or the message is too big, and the call
   ends in error 1009 without a message.
   */
  ghost predicate DeliversBinary(wire: seq<byte>, data: seq<byte>) {
    forall codec, st: State, tail | st.Valid() && !st.fragmented ::
      EmitsBinary(ProcessSpec(codec, st, wire + tail), st, data, tail)
  }

  predicate EmitsBinary(p: Processed, st: State, data: seq<byte>, tail: seq<byte>) {
    && p.state == st && p.events != []
    && var last := |p.events| - 1;
       if |data| <= 0x7FFF_FFFE then
         && p.events[last] == BinaryMessage(data) && (forall i :: 0 <= i < last ==> p.events[i].BinaryFrame?)
         && p.rest == tail && !p.timedOut
       else
         && p.events[last] == Error(1009, MessageTooBig)
         && (forall e :: e in p.events ==> !e.BinaryMessage? && !e.TextMessage?)
  }

  /**
   Whatever receiver between messages reads `wire`, and whatever follows: one call of `process` emits the text that the
   bytes decode to, as one message without an error, and leaves exactly what follows; or the bytes are no text, or their
   frames do not fit, and the call ends in error 1007 or 1009 without a message.
   */
  ghost predicate DeliversText(wire: seq<byte>, data: seq<byte>) {
    forall codec, st: State, tail | IsStreamDecoder(codec) && st.Valid() && !st.fragmented ::
      EmitsText(codec, st, data, FramesIn(wire), ProcessSpec(codec, st, wire + tail), tail)
  }

  predicate EmitsText(codec: Codec, st: State, data: seq<byte>, fs: seq<FrameData>, p: Processed, tail: seq<byte>) {
    var d := codec.decode(data, st.converter);
    && (|data| <= 0x7FFF_FFFE ==> Fits(codec, st, [], fs))
    && if Fits(codec, st, [], fs) && d.state.Clean() then
         && TextMessages(p.events) == [d.text] && NoErrors(p.events)
         && p.rest == tail && !p.timedOut && p.state == st.(converter := d.state)
       else
         && TextMessages(p.events) == [] && p.events != []
         && var last := p.events[|p.events| - 1];
            || last == Error(1007, InvalidUtf8)
            || (|data| > 0x7FFF_FFFE && last == Error(1009, MessageTooBig))
  }

  /** The fragments of the message, from which a receiver gets it as a binary message or as a text. */
  ghost predicate Arrives(wire: seq<byte>, data: seq<byte>, isBinary: bool, mustMask: bool, nextMask: nat -> Key,
                          first: nat) {
    && ReadsAsFragments(wire, data, if isBinary then 0x2 else 0x1, mustMask, nextMask, first)
    && if isBinary then DeliversBinary(wire, data) else DeliversText(wire, data)
  }

  lemma ControlFrameReads(f: SentFrame)
    requires f.Sendable() && f.last
    ensures ReadsAsFrame(f.Bytes(), f.opCode, f.payload, f.key)
  {
    hide ParseFrame, SentFrame.Bytes, SentFrame.Sendable;
    forall tail
      ensures IsReadAs(ParseFrame(f.Bytes() + tail), f.opCode, f.payload, f.key, tail)
    {
      FrameRoundTrip(f, tail);
    }
    MaskBit(f);
  }

  lemma ControlIsSendable(f: SentFrame)
    requires OP_CLOSE <= f.opCode <= OP_PONG && |f.payload| <= 125 && f.last
    ensures f.Sendable()
  {
  }

  lemma CodeInTwoBytes(code: nat)
    requires code < 0x1_0000
    ensures ToBigEndian(code, 2) == [code / 0x100, code % 0x100]
  {
    assert ToBigEndian(code / 0x100, 1) == ToBigEndian(code / 0x1_0000, 0) + [code / 0x100];
  }

  lemma MaskBit(f: SentFrame)
    requires f.Sendable()
    ensures |f.Bytes()| >= 2 && (f.Bytes()[1] >= 0x80 <==> f.key != 0)
    ensures |f.Bytes()| <= |f.payload| + 14 && (|f.payload| <= 125 ==> |f.Bytes()| <= |f.payload| + 6)
  {
    hide Masked, ToBigEndian;
  }

  /** A frame of which both parts are taken whole. */
  lemma WholeFrameSent(limits: seq<int>, f: SentFrame)
    requires f.Sendable() && |f.payload| <= 125
    requires limits == [] || limits[0] >= 6
    requires |limits| <= 1 || limits[1] >= |f.payload|
    ensures FrameSent(limits, f).bytes == f.Bytes()
  {
    hide ToBigEndian;
    var header := FrameHeader(f.opCode, |f.payload|, f.key, f.last);
    assert |header| <= 6;
    MaskedLength(f.payload, f.key);
    assert header + [] == header;
  }

  lemma FramesInSent(fs: seq<SentFrame>)
    requires forall f :: f in fs ==> f.Sendable()
    ensures FramesIn(FramesBytes(fs)) == AllAsRead(fs)
  {
    hide ReadAll, FramesBytes, AllAsRead, SentFrame.Sendable;
    var wire := FramesBytes(fs);
    WrittenFramesAreRead(fs, []);
    NothingToRead();
    assert wire + [] == wire;
  }

  lemma NothingToRead()
    ensures |ReadAll([])| == 1
  {
  }

  lemma {:induction false} AllAsReadAt(fs: seq<SentFrame>, i: nat)
    ensures |AllAsRead(fs)| == |fs| && (i < |fs| ==> AllAsRead(fs)[i] == fs[i].AsRead())
  {
    if fs != [] {
      AllAsReadAt(fs[1..], if i > 0 then i - 1 else 0);
    }
  }

  lemma MessageReads(data: seq<byte>, opCode: OpCode, mustMask: bool, nextMask: nat -> Key, first: nat)
    requires opCode <= 0x2
    ensures var wire := FramesBytes(MessageFrames(data, opCode, EffectiveKeys(nextMask, mustMask), first));
      ReadsAsFragments(wire, data, opCode, mustMask, nextMask, first)
  {
    hide MessageFrames, FramesBytes, SentFrame.Sendable, AllAsRead, FramesIn, FrameCount, Carries;
    var keys := EffectiveKeys(nextMask, mustMask);
    var fs := MessageFrames(data, opCode, keys, first);
    WrittenFramesCarry(data, opCode, keys, first);
    FramesInSent(fs);
    FrameCountByDivision(|data|);
    AllAsReadAt(fs, 0);
    MessageFrameAt(data, opCode, keys, first, 0);
    forall i | 0 <= i < |fs|
      ensures IsFragment(AllAsRead(fs)[i], i, |fs|, data, opCode, KeyOf(mustMask, nextMask, first + i))
    {
      AllAsReadAt(fs, i);
      MessageFrameAt(data, opCode, keys, first, i);
    }
  }

  lemma BinaryReads(data: seq<byte>, keys: nat -> Key, first: nat)
    ensures DeliversBinary(FramesBytes(MessageFrames(data, 0x2, keys, first)), data)
  {
    hide MessageFrames, FramesBytes, ProcessSpec, State.Valid, FrameEvents;
    var fs := MessageFrames(data, 0x2, keys, first);
    forall codec, st: State, tail | st.Valid() && !st.fragmented
      ensures EmitsBinary(ProcessSpec(codec, st, FramesBytes(fs) + tail), st, data, tail)
    {
      RestOfMessageArrives(codec, st, [], data, keys, first, tail);
      assert [] + data == data;
      FrameEventsAreFrames(fs);
    }
  }

  lemma {:induction false} FrameEventsAreFrames(fs: seq<SentFrame>)
    ensures forall i :: 0 <= i < |FrameEvents(fs)| ==> FrameEvents(fs)[i].BinaryFrame?
  {
    if fs != [] {
      FrameEventsAreFrames(fs[1..]);
    }
  }

  lemma TextReads(data: seq<byte>, keys: nat -> Key, first: nat)
    ensures DeliversText(FramesBytes(MessageFrames(data, 0x1, keys, first)), data)
  {
    hide MessageFrames, FramesBytes, ProcessSpec, State.Valid, IsStreamDecoder, Fits, ErrorOf, FramesIn, AllAsRead;
    hide Carries, SentFrame.Sendable;
    var fs := MessageFrames(data, 0x1, keys, first);
    WrittenFramesCarry(data, 0x1, keys, first);
    FramesInSent(fs);
    forall codec, st: State, tail | IsStreamDecoder(codec) && st.Valid() && !st.fragmented
      ensures EmitsText(codec, st, data, AllAsRead(fs), ProcessSpec(codec, st, FramesBytes(fs) + tail), tail)
    {
      TextEndToEnd(codec, st, data, keys, first, tail);
      ErrorIsOneOfTwo(codec, st, [], AllAsRead(fs));
    }
  }

  lemma {:induction false} ErrorIsOneOfTwo(codec: Codec, st: State, sofar: seq<byte>, fs: seq<FrameData>)
    ensures ErrorOf(codec, st, sofar, fs) in {Error(1007, InvalidUtf8), Error(1009, MessageTooBig)}
    decreases |fs|
  {
    if fs != [] {
      ErrorIsOneOfTwo(codec, st, sofar + fs[0].payload, fs[1..]);
    }
  }

  /** No payload is reported twice, and a failed write leaves some of it unreported. */
  lemma {:induction false} ReportedAtMost(limits: seq<int>, fs: seq<SentFrame>)
    ensures var out := FramesSent(limits, fs);
      out.written <= |Payloads(fs)| && (!out.ok ==> out.written < |Payloads(fs)|)
    decreases |fs|
  {
    hide Taken, FrameHeader, Masked, LimitsAfter;
    if fs != [] {
      ReportedAtMost(FrameSent(limits, fs[0]).limits, fs[1..]);
    }
  }

  /** Behind the first payload of which nothing is taken no further write is attempted: two writes for each frame. */
  lemma {:induction false} StopsAtFailure(limits: seq<int>, fs: seq<SentFrame>, k: nat)
    requires k < |fs| && |limits| >= 2 * k + 2 && limits[2 * k + 1] <= 0
    requires forall i :: 0 <= i <= k ==> fs[i].payload != []
    requires forall i :: 0 <= i < k ==> limits[2 * i + 1] > 0
    ensures !FramesSent(limits, fs).ok && FramesSent(limits, fs).limits == limits[2 * k + 2..]
    decreases k
  {
    hide Taken, FrameHeader, Masked;
    var first := FrameSent(limits, fs[0]);
    assert first.limits == limits[2..];
    if k > 0 {
      assert limits[2 * 0 + 1] > 0;
      forall i | 0 <= i < k - 1
        ensures limits[2..][2 * i + 1] > 0
      {
        assert limits[2 * (i + 1) + 1] > 0;
      }
      StopsAtFailure(limits[2..], fs[1..], k - 1);
      assert limits[2..][2 * k..] == limits[2 * k + 2..];
    }
  }

  lemma MessageOutcome(out: Sending, limits: seq<int>, data: seq<byte>, isBinary: bool, mustMask: bool,
                       nextMask: nat -> Key, first: nat)
    requires var fs := MessageFrames(data, if isBinary then 0x2 else 0x1, EffectiveKeys(nextMask, mustMask), first);
      out == FramesSent(limits, fs)
    ensures out.written <= |data| && (!out.ok ==> out.written < |data|)
    ensures limits == [] ==>
      && out.ok && out.limits == [] && out.written == |data|
      && Arrives(out.bytes, data, isBinary, mustMask, nextMask, first)
      && |FramesIn(out.bytes)| == FrameCount(|data|)
  {
    hide FramesSent, MessageFrames, DeliversBinary, DeliversText, FramesBytes, FramesIn, EffectiveKeys, FrameCount;
    hide Payloads;
    var opCode: OpCode, keys := if isBinary then 0x2 else 0x1, EffectiveKeys(nextMask, mustMask);
    var fs := MessageFrames(data, opCode, keys, first);
    ReportedAtMost(limits, fs);
    PayloadsAddUp(data, opCode, keys, first);
    if limits == [] {
      WholeFramesSent(fs);
      MessageReads(data, opCode, mustMask, nextMask, first);
      FrameCountByDivision(|data|);
      if isBinary {
        BinaryReads(data, keys, first);
      } else {
        TextReads(data, keys, first);
      }
    }
  }

  // ---------- The sending side ----------

  /** The writable side of the socket; `limits` are the outcomes of the writes to come (negative: error). */
  class OutSocket {
    var sent: seq<byte>
    var limits: seq<int>

    constructor ()
      ensures sent == [] && limits == []
    {
      sent, limits := [], [];
    }

    method Write(data: seq<byte>) returns (written: int)
      modifies this
      ensures written == Accepted(old(limits), |data|) && limits == LimitsAfter(old(limits))
      ensures sent == old(sent) + Taken(old(limits), data)
    {
      written := Accepted(limits, |data|);
      if written >= 0 {
        sent := sent + data[..written];
      }
      limits := LimitsAfter(limits);
    }
  }

  /** The part of a web socket that writes messages. */
  class Sender {
    const socket: OutSocket
    const nextMask: nat -> Key
    const encode: Reason -> seq<byte>
    var isClosingHandshakeSent: bool
    var isClosingHandshakeReceived: bool
    var closeCode: nat
    var closeReason: Reason
    var mustMask: bool
    var connected: bool
    var drawn: nat  // frames written so far; `nextMask(i)` is the key generated for frame `i`
    var errors: nat

    constructor (socket: OutSocket, nextMask: nat -> Key, encode: Reason -> seq<byte>, mustMask: bool)
      ensures this.socket == socket && this.nextMask == nextMask && this.encode == encode && this.mustMask == mustMask
      ensures connected && drawn == 0 && errors == 0
      ensures Closing() == Handshake(false, false, CLOSE_NORMAL, NoReason)
    {
      this.socket, this.nextMask, this.encode, this.mustMask := socket, nextMask, encode, mustMask;
      connected, drawn, errors := true, 0, 0;
      isClosingHandshakeSent, isClosingHandshakeReceived := false, false;
      closeCode, closeReason := CLOSE_NORMAL, NoReason;
    }

    function Closing(): Handshake
      reads this
    {
      Handshake(isClosingHandshakeSent, isClosingHandshakeReceived, closeCode, closeReason)
    }

    function Keys(): nat -> Key
      reads this`mustMask
    {
      EffectiveKeys(nextMask, mustMask)
    }

    /** The socket takes the next write, of at most `size` bytes, whole. */
    predicate TakesWhole(size: nat)
      reads socket
    {
      socket.limits == [] || socket.limits[0] >= size
    }

    /** And so it does with the write behind that. */
    predicate TakesNext(size: nat)
      reads socket
    {
      |socket.limits| <= 1 || socket.limits[1] >= size
    }

    /** The masking key of the next frame; a key is generated only when frames are masked. */
    method NextKey() returns (key: Key)
      modifies this`drawn
      ensures key == Keys()(old(drawn))
      ensures drawn == old(drawn) + 1
    {
      key := 0;
      if mustMask {
        key := nextMask(drawn);
      }
      drawn := drawn + 1;
    }

    /** Masks a part of the message buffer in place, if frames are masked. */
    method MaskPayload(buffer: array<byte>, position: nat, size: nat, key: Key)
      requires position + size <= buffer.Length && (!mustMask ==> key == 0)
      modifies buffer
      ensures buffer[position..position + size] == Masked(old(buffer[position..position + size]), key)
      ensures buffer[position + size..] == old(buffer[position + size..])
    {
      if mustMask {
        Mask(buffer, position, size, key);
      } else {
        MaskingIsAnInvolution(buffer[position..position + size], key);
      }
    }

    /** Writes one frame, masking its payload inside the message buffer. */
    method WriteFrame(buffer: array<byte>, position: nat, size: nat, opCode: OpCode, last: bool)
      returns (ok: bool, written: nat)
      requires position + size <= buffer.Length
      modifies this`drawn, socket, buffer
      ensures var frame := SentFrame(opCode, old(buffer[position..position + size]), Keys()(old(drawn)), last);
        var out := FrameSent(old(socket.limits), frame);
        && socket.sent == old(socket.sent) + out.bytes && socket.limits == out.limits
        && written == out.written && ok == out.ok
      ensures buffer[position + size..] == old(buffer[position + size..])
      ensures drawn == old(drawn) + 1
    {
      hide Masked, FrameHeader, Taken, Accepted, LimitsAfter;
      var key := NextKey();
      ghost var before, payload := socket.sent, buffer[position..position + size];
      ghost var header := FrameHeader(opCode, size, key, last);
      ghost var first := Taken(socket.limits, header);
      var _ := socket.Write(FrameHeader(opCode, size, key, last));
      ok, written := true, 0;
      if size > 0 {
        MaskPayload(buffer, position, size, key);
        ghost var second := Taken(socket.limits, buffer[position..position + size]);
        var n := socket.Write(buffer[position..position + size]);
        ok := n > 0;
        written := if ok then n else 0;
        assert before + first + second == before + (first + second);
      }
    }

    /** What is to come of sending a message now. */
    ghost function MessageSent(data: seq<byte>, isBinary: bool): Sending
      reads this, socket
    {
      FramesSent(socket.limits, MessageFrames(data, if isBinary then OP_BINARY else OP_TEXT, Keys(), drawn))
    }

    /**
     For every socket: the bytes it gets, the payload reported, and an error for a failed write and for a missing byte,
     so that there is none exactly if all of the payload was taken. A socket that takes every write whole gets the
     frames of the message, of which a receiver makes a binary message or a text as the caller has said.
     */
    method DoWriteFrames(data: seq<byte>, isBinary: bool) returns (payloadWritten: int)
      modifies this`drawn, this`errors, socket
      ensures !connected ==> payloadWritten == 0 && socket.sent == old(socket.sent) && errors == old(errors)
      ensures connected ==>
        var out := old(MessageSent(data, isBinary));
        && socket.sent == old(socket.sent) + out.bytes && socket.limits == out.limits && payloadWritten == out.written
        && errors == old(errors) + (if out.ok then 0 else 1) + (if out.written == |data| then 0 else 1)
      ensures connected ==> payloadWritten <= |data| && (errors == old(errors) <==> payloadWritten == |data|)
      ensures connected && old(socket.limits) == [] ==>
        && payloadWritten == |data| && errors == old(errors) && socket.limits == []
        && old(socket.sent) <= socket.sent
        && var wire := socket.sent[|old(socket.sent)|..];
           Arrives(wire, data, isBinary, mustMask, nextMask, old(drawn)) && drawn == old(drawn) + |FramesIn(wire)|
    {
      hide FramesSent, FrameSent, FrameCount, EffectiveKeys, StillToSend, Remains, MessageFrames;
      hide Arrives, FramesBytes, FramesIn, Payloads;
      payloadWritten := 0;
      if !connected {
        return;
      }
      var opCode: OpCode := if isBinary then OP_BINARY else OP_TEXT;
      var numFrames := CountFrames(|data|);
      var payload := new byte[|data|](i requires 0 <= i < |data| => data[i]);
      var currentPosition, bytesLeft := 0, |data|;
      ghost var keys, start, goal := Keys(), socket.sent, MessageSent(data, isBinary);
      ghost var failed := false;
      ghost var whole := socket.limits == [];
      MessageOutcome(goal, socket.limits, data, isBinary, mustMask, nextMask, drawn);
      AllRemains(start, goal, socket.limits, data, opCode, keys, drawn);
      assert payload[0..] == data[0..] == data;
      var i := 0;
      while i < numFrames
        invariant 0 <= i <= numFrames && !failed
        invariant currentPosition + bytesLeft == |data| && 0 <= currentPosition && 0 <= bytesLeft
        invariant if i < numFrames then numFrames - i == FrameCount(bytesLeft) else bytesLeft == 0
        invariant payload[currentPosition..] == data[currentPosition..]
        invariant errors == old(errors) && drawn == old(drawn) + i
        invariant Remains(start, goal, socket.sent, payloadWritten,
                          StillToSend(i < numFrames, socket.limits, data[currentPosition..], opCode, keys, drawn))
      {
        var size := if bytesLeft < FRAME_SIZE then bytesLeft else FRAME_SIZE;
        ghost var rest := data[currentPosition..];
        NextSlice(payload[..], data, currentPosition, size);
        FrameByFrame(start, goal, socket.sent, payloadWritten, socket.limits, rest, opCode, keys, drawn);
        FrameCountStep(bytesLeft);
        var ok, written := WriteFrame(payload, currentPosition, size, opCode, i == numFrames - 1);
        payloadWritten := payloadWritten + written;
        if !ok {
          errors := errors + 1;
          failed := true;
          break;
        }
        currentPosition := currentPosition + size;
        bytesLeft := bytesLeft - size;
        opCode := OP_CONTINUE;
        i := i + 1;
      }
      NothingRemains(start, goal, socket.sent, payloadWritten, socket.limits, !failed, data[currentPosition..], opCode,
                     keys, drawn);
      if payloadWritten != |data| {
        errors := errors + 1;
      }
      assert socket.sent[|start|..] == goal.bytes;
    }

    /** Writes a control frame in one piece; the result of the write is ignored. */
    method WriteControl(opCode: OpCode, payload: seq<byte>)
      modifies this`drawn, socket
      ensures socket.sent
           == old(socket.sent)
              + Taken(old(socket.limits), SentFrame(opCode, payload, Keys()(old(drawn)), true).Bytes())
      ensures drawn == old(drawn) + 1
      ensures OP_CLOSE <= opCode <= OP_PONG && |payload| <= 125 && old(TakesWhole(|payload| + 6)) ==>
        && old(socket.sent) <= socket.sent
        && ReadsAsFrame(socket.sent[|old(socket.sent)|..], opCode, payload, KeyOf(mustMask, nextMask, old(drawn)))
    {
      hide FrameHeader, Masked, ReadsAsFrame, SentFrame.Sendable;
      ghost var start, sent := socket.sent, SentFrame(opCode, payload, Keys()(drawn), true);
      if OP_CLOSE <= opCode <= OP_PONG && |payload| <= 125 {
        assert sent.Sendable() by { ControlIsSendable(sent); }
        MaskBit(sent);
        ControlFrameReads(sent);
      }
      var bytes := new byte[|payload|](i requires 0 <= i < |payload| => payload[i]);
      assert bytes[..] == bytes[0..|payload|] == payload;
      var key := NextKey();
      if mustMask {
        Mask(bytes, 0, |payload|, key);
        assert bytes[..] == Masked(payload, key);
      } else {
        MaskingIsAnInvolution(payload, key);
      }
      var frame := FrameHeader(opCode, |payload|, key, true);
      frame := frame + bytes[..];
      assert frame == sent.Bytes() && start + frame[..|frame|] == start + frame;
      var _ := socket.Write(frame);
      assert (start + frame)[|start|..] == frame;
    }

    method Close(code: nat, reason: Reason)
      modifies this`isClosingHandshakeSent, this`closeCode, this`closeReason, this`drawn, socket
      ensures Closing() == CloseOnce(old(Closing()), code, reason)
      ensures old(isClosingHandshakeSent) ==> socket.sent == old(socket.sent)
      ensures !old(isClosingHandshakeSent) ==>
        socket.sent
          == old(socket.sent) + Taken(old(socket.limits), CloseFrame(encode, code, reason, Keys()(old(drawn))).Bytes())
      ensures
        var text := if reason == NoReason then [] else encode(reason);
        !old(isClosingHandshakeSent) && code < 0x1_0000 && |text| <= 123 && old(TakesWhole(|text| + 8)) ==>
          && old(socket.sent) <= socket.sent
          && ReadsAsFrame(socket.sent[|old(socket.sent)|..], 0x8, [code / 0x100, code % 0x100] + text,
                          KeyOf(mustMask, nextMask, old(drawn)))
    {
      hide ReadsAsFrame, FrameHeader, Masked, Taken;
      if !isClosingHandshakeSent {
        closeCode, closeReason := code, reason;
        var payload: seq<byte> := ToBigEndian(code, 2);
        if reason != NoReason {
          payload := payload + encode(reason);
        }
        assert payload == ClosePayload(encode, code, reason);
        if code < 0x1_0000 {
          CodeInTwoBytes(code);
        }
        WriteControl(OP_CLOSE, payload);
        isClosingHandshakeSent := true;
      }
    }

    method ProcessClose(code: nat, reason: Reason)
      modifies this`isClosingHandshakeSent, this`isClosingHandshakeReceived, this`closeCode, this`closeReason,
               this`drawn, socket
      ensures Closing() == CloseOnce(old(Closing()).(received := true), code, reason)
      ensures old(isClosingHandshakeSent) ==> socket.sent == old(socket.sent)
      ensures !old(isClosingHandshakeSent) ==>
        socket.sent
          == old(socket.sent) + Taken(old(socket.limits), CloseFrame(encode, code, reason, Keys()(old(drawn))).Bytes())
    {
      isClosingHandshakeReceived := true;
      Close(code, reason);
    }

    method Ping(payload: seq<byte>)
      modifies this`drawn, socket
      ensures socket.sent
           == old(socket.sent) + Taken(old(socket.limits), PingFrame(payload, Keys()(old(drawn))).Bytes())
      ensures old(TakesWhole(131)) ==>
        && old(socket.sent) <= socket.sent
        && ReadsAsFrame(socket.sent[|old(socket.sent)|..], 0x9, if |payload| <= 125 then payload else payload[..125],
                        KeyOf(mustMask, nextMask, old(drawn)))
    {
      hide ReadsAsFrame, FrameHeader, Masked, Taken;
      WriteControl(OP_PING, if |payload| <= 125 then payload else payload[..125]);
    }

    /** Writes the header and then the payload, if there is one; the results of the writes are ignored. */
    method ProcessPing(data: seq<byte>)
      modifies this`drawn, socket
      ensures var out := FrameSent(old(socket.limits), PongFrame(data, Keys()(old(drawn))));
        socket.sent == old(socket.sent) + out.bytes && socket.limits == out.limits
      ensures drawn == old(drawn) + 1
      ensures |data| <= 125 && old(TakesWhole(6) && TakesNext(|data|)) ==>
        && old(socket.sent) <= socket.sent
        && ReadsAsFrame(socket.sent[|old(socket.sent)|..], 0xA, data, KeyOf(mustMask, nextMask, old(drawn)))
    {
      hide ReadsAsFrame, FrameHeader, Masked, Taken, Accepted, SentFrame.Sendable;
      ghost var start, limits, sent := socket.sent, socket.limits, PongFrame(data, Keys()(drawn));
      var key := NextKey();
      var header := FrameHeader(OP_PONG, |data|, key, true);
      ghost var first := Taken(limits, header);
      var _ := socket.Write(header);
      if |data| > 0 {
        var bytes := new byte[|data|](i requires 0 <= i < |data| => data[i]);
        assert bytes[..] == bytes[0..|data|] == data;
        MaskPayload(bytes, 0, |data|, key);
        assert bytes[..] == bytes[0..|data|];
        ghost var second := Taken(socket.limits, bytes[..]);
        var _ := socket.Write(bytes[..]);
        assert start + first + second == start + (first + second);
      }
      if |data| <= 125 && old(TakesWhole(6) && TakesNext(|data|)) {
        assert sent.Sendable() by { ControlIsSendable(sent); }
        MaskBit(sent);
        WholeFrameSent(limits, sent);
        ControlFrameReads(sent);
        assert (start + sent.Bytes())[|start|..] == sent.Bytes();
      }
    }
  }
}
