/** The frame printer: headers, message fragmentation and their relation to the parser. */
module WebSocketWriter {
  import opened Sequences
  import opened WebSocketProtocol
  import opened WebSocketFrames

  const FRAME_SIZE := 512 * 512 * 2
  const MAX_LENGTH := 0x7FFF_FFFF_FFFF_FFFF

  // ---------- Printing one frame ----------

  function LengthCode(n: nat): byte {
    if n <= 125 then n else if n <= 0xFFFF then 126 else 127
  }

  function ExtendedLength(n: nat): seq<byte> {
    if n <= 125 then [] else if n <= 0xFFFF then ToBigEndian(n, 2) else ToBigEndian(n, 8)
  }

  function KeyBytes(key: Key): seq<byte> {
    if key != 0 then ToBigEndian(key, 4) else []
  }

  /** Key 0 stands for "not masked"; a length above 2^63 - 1 has no header. */
  function FrameHeader(opCode: OpCode, payloadLength: nat, key: Key, lastFrame: bool): seq<byte> {
    if payloadLength > MAX_LENGTH then []
    else
      [opCode + if lastFrame then 0x80 else 0,
       LengthCode(payloadLength) + if key != 0 then 0x80 else 0]
      + ExtendedLength(payloadLength) + KeyBytes(key)
  }

  datatype SentFrame = SentFrame(opCode: OpCode, payload: seq<byte>, key: Key, last: bool)
  {
    function Bytes(): seq<byte> {
      FrameHeader(opCode, |payload|, key, last) + Masked(payload, key)
    }

    /** The frame a receiver reads back. */
    function AsRead(): FrameData {
      CLEARED.(fin := last, opCode := opCode, length := LengthCode(|payload|), mask := key, payload := payload,
               valid := true)
    }

    /** What every caller of the printer in the sender respects. */
    predicate Sendable() {
      && !IsOpCodeReserved(opCode)
      && |payload| <= MAX_FRAME_SIZE
      && (IsControlOpCode(opCode) ==> last && |payload| <= 125)
    }
  }

  lemma Pow256Values()
    ensures Pow256(2) == 0x1_0000 && Pow256(4) == 0x1_0000_0000 && Pow256(8) == 0x1_0000_0000_0000_0000
  {
    assert Pow256(4) == 0x1_0000_0000;
    assert Pow256(6) == 0x1_0000_0000_0000;
  }

  lemma HeaderBits(opCode: OpCode, last: bool, code: byte, masked: bool)
    requires code < 0x80
    ensures var first: byte, second: byte := opCode + (if last then 0x80 else 0), code + if masked then 0x80 else 0;
      && HeaderOf(first, second) == CLEARED.(fin := last, opCode := opCode, length := code)
      && second / 0x80 == if masked then 1 else 0
  {
  }

  lemma LengthRoundTrip(f: FrameData, n: nat, hasMask: bool, s: seq<byte>)
    requires n <= MAX_LENGTH && f.length == LengthCode(n)
    ensures ParseLength(f, hasMask, ExtendedLength(n) + s) == ParseMask(f, hasMask, n, s)
  {
    hide ParseMask, Pow256, ToBigEndian, FromBigEndian;
    Pow256Values();
    var bytes := ExtendedLength(n);
    if n <= 125 {
      assert bytes + s == s;
    } else {
      var width := if n <= 0xFFFF then 2 else 8;
      BigEndianRoundTrip(n, width);
      assert (bytes + s)[..width] == bytes && (bytes + s)[width..] == s;
    }
  }

  lemma KeyRoundTrip(f: FrameData, n: nat, key: Key, s: seq<byte>)
    requires f.mask == 0
    ensures ParseMask(f, key != 0, n, KeyBytes(key) + s) == ParsePayload(f.(mask := key), key != 0, n, s)
  {
    hide ParsePayload, Pow256, ToBigEndian, FromBigEndian;
    if key == 0 {
      assert KeyBytes(key) + s == s;
      assert f.(mask := 0) == f;
    } else {
      Pow256Values();
      BigEndianRoundTrip(key, 4);
      assert (KeyBytes(key) + s)[..4] == KeyBytes(key) && (KeyBytes(key) + s)[4..] == s;
    }
  }

  /** Parsing a printed header restores FIN, opcode, length and key, for every length that has a header. */
  lemma HeaderRoundTrip(opCode: OpCode, n: nat, key: Key, last: bool, s: seq<byte>)
    requires n <= MAX_LENGTH && !IsOpCodeReserved(opCode)
    requires IsControlOpCode(opCode) ==> last && n <= 125
    ensures ParseFrame(FrameHeader(opCode, n, key, last) + s)
         == ParsePayload(CLEARED.(fin := last, opCode := opCode, length := LengthCode(n), mask := key, valid := true),
                         key != 0, n, s)
  {
    hide ParseLength, ParseMask, ParsePayload, HeaderOf, ExtendedLength, KeyBytes;
    HeaderBits(opCode, last, LengthCode(n), key != 0);
    var wire := FrameHeader(opCode, n, key, last) + s;
    var f := CLEARED.(fin := last, opCode := opCode, length := LengthCode(n));
    assert HeaderFault(f) == NoReason;
    assert wire[2..] == ExtendedLength(n) + (KeyBytes(key) + s);
    LengthRoundTrip(f.(valid := true), n, key != 0, KeyBytes(key) + s);
    KeyRoundTrip(f.(valid := true), n, key, s);
  }

  /** Parsing a printed frame gives the frame back and consumes exactly its bytes. */
  lemma FrameRoundTrip(f: SentFrame, tail: seq<byte>)
    requires f.Sendable()
    ensures ParseFrame(f.Bytes() + tail) == Outcome(f.AsRead(), tail)
  {
    hide ParseFrame, Masked, FrameHeader;
    var masked := Masked(f.payload, f.key);
    HeaderRoundTrip(f.opCode, |f.payload|, f.key, f.last, masked + tail);
    assert f.Bytes() + tail == FrameHeader(f.opCode, |f.payload|, f.key, f.last) + (masked + tail);
    PayloadRoundTrip(f.AsRead().(payload := []), f.payload, tail);
  }

  lemma PayloadRoundTrip(f: FrameData, payload: seq<byte>, tail: seq<byte>)
    requires f.payload == [] && |payload| <= MAX_FRAME_SIZE
    ensures ParsePayload(f, f.mask != 0, |payload|, Masked(payload, f.mask) + tail)
         == Outcome(f.(payload := payload), tail)
  {
    hide Masked;
    var masked := Masked(payload, f.mask);
    assert (masked + tail)[..|masked|] == masked && (masked + tail)[|masked|..] == tail;
    MaskingIsAnInvolution(payload, f.mask);
    if payload == [] {
      assert f.(payload := []) == f;
    }
  }

  // ---------- Reprinting what was parsed ----------

  lemma ReprintLength(f: FrameData, hasMask: bool, s: seq<byte>) returns (n: nat, rest: seq<byte>)
    requires f.length < 0x80 && ParseLength(f, hasMask, s).frame.valid
    ensures n <= MAX_LENGTH && LengthCode(n) == f.length
    ensures ParseLength(f, hasMask, s) == ParseMask(f, hasMask, n, rest)
    ensures s == ExtendedLength(n) + rest
  {
    hide ParseMask, Pow256, ToBigEndian, FromBigEndian;
    if f.length >= 126 {
      var width := if f.length == 126 then 2 else 8;
      n, rest := FromBigEndian(s[..width]), s[width..];
      BigEndianCanonical(s[..width]);
      Pow256Values();
    } else {
      n, rest := f.length, s;
    }
  }

  lemma ReprintPayload(f: FrameData, hasMask: bool, n: nat, s: seq<byte>)
    requires f.payload == [] && ParsePayload(f, hasMask, n, s).frame.valid
    requires !hasMask ==> f.mask == 0
    ensures var o := ParsePayload(f, hasMask, n, s);
      && o.frame == f.(payload := o.frame.payload) && |o.frame.payload| == n
      && s == Masked(o.frame.payload, f.mask) + o.rest
  {
    hide Masked;
    if n > 0 {
      MaskingIsAnInvolution(s[..n], f.mask);
    }
  }

  lemma ReprintMask(f: FrameData, hasMask: bool, n: nat, s: seq<byte>) returns (key: Key, rest: seq<byte>)
    requires f.mask == 0 && ParseMask(f, hasMask, n, s).frame.valid
    ensures ParseMask(f, hasMask, n, s) == ParsePayload(f.(mask := key), hasMask, n, rest)
    ensures !hasMask ==> key == 0
    ensures s == (if hasMask then ToBigEndian(key, 4) else []) + rest
  {
    hide ParsePayload, Pow256, ToBigEndian, FromBigEndian;
    if hasMask {
      Pow256Values();
      BigEndianCanonical(s[..4]);
      key, rest := FromBigEndian(s[..4]), s[4..];
    } else {
      key, rest := 0, s;
      assert f.(mask := 0) == f;
    }
  }

  lemma ReprintHeaderBytes(first: byte, second: byte)
    requires HeaderFault(HeaderOf(first, second)) == NoReason
    ensures var f := HeaderOf(first, second);
      && f.length < 0x80
      && first == f.opCode + (if f.fin then 0x80 else 0)
      && second == f.length + if second / 0x80 == 1 then 0x80 else 0
  {
  }

  /**
   Re-printing an accepted frame gives back exactly the bytes it was read from, unless the frame had its
   mask bit set together with an all-zero key.
   */
  lemma AcceptedFrameIsCanonical(s: seq<byte>)
    requires ParseFrame(s).frame.valid
    ensures var o := ParseFrame(s); var f := o.frame;
      s == SentFrame(f.opCode, f.payload, f.mask, f.fin).Bytes() + o.rest <==> !(s[1] >= 0x80 && f.mask == 0)
  {
    hide ParseLength, ParseMask, ParsePayload, HeaderOf, HeaderFault, Masked, ToBigEndian, ExtendedLength;
    var f, hasMask := HeaderOf(s[0], s[1]), s[1] / 0x80 == 1;
    ReprintHeaderBytes(s[0], s[1]);
    assert f.mask == 0 && f.payload == [] by { HeaderStartsCleared(s[0], s[1]); }
    var f1 := f.(valid := true);
    var n, afterLength := ReprintLength(f1, hasMask, s[2..]);
    var key, afterKey := ReprintMask(f1, hasMask, n, afterLength);
    ReprintPayload(f1.(mask := key), hasMask, n, afterKey);
    var o := ParseFrame(s);
    assert o == ParsePayload(f1.(mask := key), hasMask, n, afterKey);
    assert s == [s[0], s[1]] + s[2..];
    ReprintIff(SentFrame(f.opCode, o.frame.payload, key, f.fin), hasMask, s, afterLength, afterKey, o.rest);
  }

  lemma ReprintIff(g: SentFrame, hasMask: bool, s: seq<byte>, afterLength: seq<byte>, afterKey: seq<byte>,
                   rest: seq<byte>)
    requires |g.payload| <= MAX_LENGTH && (!hasMask ==> g.key == 0)
    requires s == [g.opCode + if g.last then 0x80 else 0, LengthCode(|g.payload|) + if hasMask then 0x80 else 0]
                  + (ExtendedLength(|g.payload|) + afterLength)
    requires afterLength == (if hasMask then ToBigEndian(g.key, 4) else []) + afterKey
    requires afterKey == Masked(g.payload, g.key) + rest
    ensures s == g.Bytes() + rest <==> !(hasMask && g.key == 0)
  {
    hide Masked, ToBigEndian, ExtendedLength;
    if hasMask && g.key == 0 {
      assert (g.Bytes() + rest)[1] < 0x80 <= s[1];
    } else {
      assert KeyBytes(g.key) == if hasMask then ToBigEndian(g.key, 4) else [];
    }
  }

  lemma HeaderStartsCleared(first: byte, second: byte)
    ensures HeaderOf(first, second).mask == 0 && HeaderOf(first, second).payload == []
  {
  }

  // ---------- Fragmenting a message ----------

  /** The frames of a message; `keys` yields the effective masking keys, `first` the number of the next one. */
  function MessageFrames(data: seq<byte>, opCode: OpCode, keys: nat -> Key, first: nat): (fs: seq<SentFrame>)
    ensures |fs| > 0
    decreases |data|
  {
    if |data| <= FRAME_SIZE then
      [SentFrame(opCode, data, keys(first), true)]
    else
      [SentFrame(opCode, data[..FRAME_SIZE], keys(first), false)]
      + MessageFrames(data[FRAME_SIZE..], OP_CONTINUE, keys, first + 1)
  }

  function FrameCount(size: nat): (n: nat)
    ensures n >= 1
  {
    if size <= FRAME_SIZE then 1 else 1 + FrameCount(size - FRAME_SIZE)
  }

  lemma {:induction false} FrameCountByDivision(size: nat)
    ensures FrameCount(size) == if size == 0 then 1 else size / FRAME_SIZE + if size % FRAME_SIZE == 0 then 0 else 1
  {
    if size > FRAME_SIZE {
      FrameCountByDivision(size - FRAME_SIZE);
    }
  }

  lemma FrameCountStep(size: nat)
    ensures FrameCount(size) == if size <= FRAME_SIZE then 1 else 1 + FrameCount(size - FRAME_SIZE)
  {
  }

  function FramesBytes(fs: seq<SentFrame>): seq<byte> {
    if fs == [] then [] else fs[0].Bytes() + FramesBytes(fs[1..])
  }

  function Payloads(fs: seq<SentFrame>): seq<byte> {
    if fs == [] then [] else fs[0].payload + Payloads(fs[1..])
  }

  lemma {:induction false} PayloadsAddUp(data: seq<byte>, opCode: OpCode, keys: nat -> Key, first: nat)
    ensures Payloads(MessageFrames(data, opCode, keys, first)) == data
    decreases |data|
  {
    var fs := MessageFrames(data, opCode, keys, first);
    if |data| <= FRAME_SIZE {
      assert fs[1..] == [];
    } else {
      PayloadsAddUp(data[FRAME_SIZE..], OP_CONTINUE, keys, first + 1);
      assert fs[1..] == MessageFrames(data[FRAME_SIZE..], OP_CONTINUE, keys, first + 1);
      assert data == data[..FRAME_SIZE] + data[FRAME_SIZE..];
    }
  }

  /** Frame `i` carries the `i`-th slice; only the first names the type of the message and only the last ends it. */
  lemma {:induction false} MessageFrameAt(data: seq<byte>, opCode: OpCode, keys: nat -> Key, first: nat, i: nat)
    ensures var fs := MessageFrames(data, opCode, keys, first);
      && |fs| == FrameCount(|data|)
      && (i < |fs| ==>
            && fs[i].opCode == (if i == 0 then opCode else OP_CONTINUE)
            && fs[i].last == (i == |fs| - 1)
            && fs[i].key == keys(first + i)
            && i * FRAME_SIZE <= |data|
            && fs[i].payload <= data[i * FRAME_SIZE..]
            && |fs[i].payload| == if fs[i].last then |data| - i * FRAME_SIZE else FRAME_SIZE)
    decreases |data|
  {
    hide MessageFrames, FrameCount;
    MessageFramesStep(data, opCode, keys, first);
    if |data| > FRAME_SIZE {
      var j := if i > 0 then i - 1 else 0;
      MessageFrameAt(data[FRAME_SIZE..], OP_CONTINUE, keys, first + 1, j);
      if 0 < i < |MessageFrames(data, opCode, keys, first)| {
        assert i * FRAME_SIZE == FRAME_SIZE + j * FRAME_SIZE;
        SliceOfSuffix(data, FRAME_SIZE, j * FRAME_SIZE);
      }
    }
  }

  lemma MessageFramesStep(data: seq<byte>, opCode: OpCode, keys: nat -> Key, first: nat)
    ensures var fs := MessageFrames(data, opCode, keys, first);
      if |data| <= FRAME_SIZE then
        fs == [SentFrame(opCode, data, keys(first), true)] && FrameCount(|data|) == 1
      else
        && fs == [SentFrame(opCode, data[..FRAME_SIZE], keys(first), false)]
                 + MessageFrames(data[FRAME_SIZE..], OP_CONTINUE, keys, first + 1)
        && FrameCount(|data|) == 1 + FrameCount(|data[FRAME_SIZE..]|)
  {
  }

  // ---------- Frames on a socket that may take a part of each write ----------

  /** What the next write of `size` bytes returns: any limit the socket has, a negative one for an error. */
  function Accepted(limits: seq<int>, size: nat): (n: int)
    ensures n <= size
  {
    if limits == [] || limits[0] >= size then size else limits[0]
  }

  function LimitsAfter(limits: seq<int>): seq<int> {
    if limits == [] then [] else limits[1..]
  }

  /** The bytes that such a write puts on the wire. */
  function Taken(limits: seq<int>, data: seq<byte>): seq<byte> {
    if Accepted(limits, |data|) < 0 then [] else data[..Accepted(limits, |data|)]
  }

  /** Bytes sent, limits left, bytes of payload reported, and whether the loop goes on. */
  datatype Sending = Sending(bytes: seq<byte>, limits: seq<int>, written: nat, ok: bool)

  /** One frame: the result of writing the header is ignored, that of writing the payload is not. */
  function FrameSent(limits: seq<int>, f: SentFrame): Sending {
    var header, later := FrameHeader(f.opCode, |f.payload|, f.key, f.last), LimitsAfter(limits);
    if f.payload == [] then Sending(Taken(limits, header), later, 0, true)
    else
      var n := Accepted(later, |f.payload|);
      Sending(Taken(limits, header) + Taken(later, Masked(f.payload, f.key)), LimitsAfter(later),
              if n > 0 then n else 0, n > 0)
  }

  /** The frames of a message, up to the first payload of which nothing is taken. */
  function FramesSent(limits: seq<int>, fs: seq<SentFrame>): Sending
    decreases |fs|
  {
    if fs == [] then Sending([], limits, 0, true)
    else
      var first := FrameSent(limits, fs[0]);
      if !first.ok then first else Behind(first, FramesSent(first.limits, fs[1..]))
  }

  function Behind(first: Sending, later: Sending): Sending {
    Sending(first.bytes + later.bytes, later.limits, first.written + later.written, later.ok)
  }

  /** A socket that takes each write whole gets exactly the frames, and all of the payload is reported. */
  lemma {:induction false} WholeFramesSent(fs: seq<SentFrame>)
    ensures FramesSent([], fs) == Sending(FramesBytes(fs), [], |Payloads(fs)|, true)
    decreases |fs|
  {
    hide FrameHeader, Masked;
    if fs != [] {
      WholeFramesSent(fs[1..]);
      var f := fs[0];
      assert f.payload == [] ==> Masked(f.payload, f.key) == [] by { MaskedLength(f.payload, f.key); }
      MaskedLength(f.payload, f.key);
      var header := FrameHeader(f.opCode, |f.payload|, f.key, f.last);
      assert header + [] == header;
    }
  }

  lemma MaskedLength(payload: seq<byte>, key: Key)
    ensures |Masked(payload, key)| == |payload|
  {
  }

  function StillToSend(more: bool, limits: seq<int>, data: seq<byte>, opCode: OpCode, keys: nat -> Key, first: nat)
    : Sending
  {
    if more then FramesSent(limits, MessageFrames(data, opCode, keys, first)) else Sending([], limits, 0, true)
  }

  lemma StillToSendStep(limits: seq<int>, data: seq<byte>, opCode: OpCode, keys: nat -> Key, first: nat)
    ensures var size := if |data| < FRAME_SIZE then |data| else FRAME_SIZE;
      var more := |data| > FRAME_SIZE;
      var sent := FrameSent(limits, SentFrame(opCode, data[..size], keys(first), !more));
      StillToSend(true, limits, data, opCode, keys, first)
        == if sent.ok then
             Behind(sent, StillToSend(more, sent.limits, data[size..], OP_CONTINUE, keys, first + 1))
           else sent
  {
    hide FrameSent;
    var fs := MessageFrames(data, opCode, keys, first);
    var sent := FrameSent(limits, fs[0]);
    if |data| > FRAME_SIZE {
      assert fs[1..] == MessageFrames(data[FRAME_SIZE..], OP_CONTINUE, keys, first + 1);
    } else {
      var size := if |data| < FRAME_SIZE then |data| else FRAME_SIZE;
      assert size == |data| && data[..size] == data;
      var frame := SentFrame(opCode, data[..size], keys(first), true);
      assert fs == [frame] && fs[1..] == [];
      assert FramesSent(sent.limits, []) == Sending([], sent.limits, 0, true);
    }
  }

  /** On the way to `goal`, `now` is on the wire and `written` reported; `still` is to come. */
  ghost predicate Remains(start: seq<byte>, goal: Sending, now: seq<byte>, written: int, still: Sending) {
    && start + goal.bytes == now + still.bytes && goal.limits == still.limits
    && goal.written == written + still.written && goal.ok == still.ok
  }

  /** One round of the loop. */
  lemma FrameByFrame(start: seq<byte>, goal: Sending, now: seq<byte>, written: int, limits: seq<int>, data: seq<byte>,
                     opCode: OpCode, keys: nat -> Key, first: nat)
    requires Remains(start, goal, now, written, StillToSend(true, limits, data, opCode, keys, first))
    ensures var size := if |data| < FRAME_SIZE then |data| else FRAME_SIZE;
      var more := |data| > FRAME_SIZE;
      var sent := FrameSent(limits, SentFrame(opCode, data[..size], keys(first), !more));
      Remains(start, goal, now + sent.bytes, written + sent.written,
              if sent.ok then StillToSend(more, sent.limits, data[size..], OP_CONTINUE, keys, first + 1)
              else Sending([], sent.limits, 0, false))
  {
    hide FrameSent, StillToSend;
    var size := if |data| < FRAME_SIZE then |data| else FRAME_SIZE;
    var sent := FrameSent(limits, SentFrame(opCode, data[..size], keys(first), !(|data| > FRAME_SIZE)));
    StillToSendStep(limits, data, opCode, keys, first);
    SentIsNotOk(limits, SentFrame(opCode, data[..size], keys(first), !(|data| > FRAME_SIZE)));
    var later := StillToSend(|data| > FRAME_SIZE, sent.limits, data[size..], OP_CONTINUE, keys, first + 1);
    assert now + (sent.bytes + later.bytes) == now + sent.bytes + later.bytes;
    assert now + sent.bytes + [] == now + sent.bytes;
  }

  /** Nothing of the payload is reported for a frame that failed. */
  lemma SentIsNotOk(limits: seq<int>, f: SentFrame)
    ensures !FrameSent(limits, f).ok ==> FrameSent(limits, f).written == 0
  {
    hide Taken, FrameHeader, Masked;
  }

  lemma AllRemains(start: seq<byte>, goal: Sending, limits: seq<int>, data: seq<byte>, opCode: OpCode,
                   keys: nat -> Key, first: nat)
    requires goal == FramesSent(limits, MessageFrames(data, opCode, keys, first))
    ensures Remains(start, goal, start, 0, StillToSend(true, limits, data, opCode, keys, first))
  {
    hide FramesSent, MessageFrames;
  }

  lemma NothingRemains(start: seq<byte>, goal: Sending, now: seq<byte>, written: int, limits: seq<int>, ok: bool,
                       data: seq<byte>, opCode: OpCode, keys: nat -> Key, first: nat)
    requires Remains(start, goal, now, written,
                     if ok then StillToSend(false, limits, data, opCode, keys, first)
                     else Sending([], limits, 0, false))
    ensures now == start + goal.bytes && goal.limits == limits && goal.written == written && goal.ok == ok
  {
    assert now + [] == now;
  }

  /** The number of frames, as the loop counts them. */
  method CountFrames(size: nat) returns (numFrames: nat)
    ensures numFrames == FrameCount(size)
  {
    numFrames := size / FRAME_SIZE;
    var sizeLeft := size % FRAME_SIZE;
    if sizeLeft != 0 {
      numFrames := numFrames + 1;
    }
    if numFrames == 0 {
      numFrames := 1;
    }
    FrameCountByDivision(size);
  }

  lemma NextSlice(buffer: seq<byte>, data: seq<byte>, position: nat, size: nat)
    requires position + size <= |buffer| == |data| && buffer[position..] == data[position..]
    ensures buffer[position..position + size] == data[position..][..size]
    ensures buffer[position + size..] == data[position + size..] == data[position..][size..]
  {
    assert buffer[position..position + size] == buffer[position..][..size];
    assert buffer[position + size..] == buffer[position..][size..];
  }

  // ---------- Control frames ----------

  /** The closing handshake as one endpoint sees it. */
  datatype Handshake = Handshake(sent: bool, received: bool, code: nat, reason: Reason)

  /** The close code in two bytes, then the UTF-8 text of the reason. */
  function ClosePayload(encode: Reason -> seq<byte>, code: nat, reason: Reason): seq<byte> {
    ToBigEndian(code, 2) + if reason == NoReason then [] else encode(reason)
  }

  function CloseFrame(encode: Reason -> seq<byte>, code: nat, reason: Reason, key: Key): SentFrame {
    SentFrame(OP_CLOSE, ClosePayload(encode, code, reason), key, true)
  }

  /** Only the first call of an endpoint sends a close frame and settles its code and reason. */
  function CloseOnce(h: Handshake, code: nat, reason: Reason): Handshake {
    if h.sent then h else h.(sent := true, code := code, reason := reason)
  }

  function PingFrame(payload: seq<byte>, key: Key): SentFrame {
    SentFrame(OP_PING, if |payload| <= 125 then payload else payload[..125], key, true)
  }

  function PongFrame(payload: seq<byte>, key: Key): SentFrame {
    SentFrame(OP_PONG, payload, key, true)
  }
}
