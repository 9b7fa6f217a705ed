/** The frame parser: one-shot specification, the socket it reads from and the resumable reader. */
module WebSocketFrames {
  import opened WebSocketProtocol

  /** The texts a close frame or an error carries; only `Peer` texts come from outside. */
  datatype Reason =
    | NoReason
    | Peer(text: Text)
    | ReadTimeout
    | RsvNonZero
    | ReservedOpCode
    | ControlFrameTooLarge
    | ControlFrameFragmented
    | LengthBelow126
    | LengthHighBitSet
    | LengthBelow65536
    | FrameSizeExceeded
    | NothingToContinue
    | ContinuationExpected
    | MessageTooBig
    | InvalidUtf8
    | ClosePayloadTooSmall
    | InvalidCloseCode(code: int)

  datatype FrameData = FrameData(
    closeCode: nat, closeReason: Reason, mask: Key, opCode: OpCode, length: byte, payload: seq<byte>,
    fin: bool, rsv1: bool, rsv2: bool, rsv3: bool, valid: bool)
  {
    predicate IsControl() { IsControlOpCode(opCode) }
    predicate IsContinuation() { !IsControl() && opCode == OP_CONTINUE }
  }

  const CLEARED := FrameData(CLOSE_NORMAL, NoReason, 0, OP_RESERVED_C, 0, [], true, false, false, false, false)

  function Failed(code: nat, reason: Reason): FrameData {
    CLEARED.(closeCode := code, closeReason := reason)
  }

  // ---------- One-shot parser ----------

  /** What a read returns and the bytes it leaves unread. */
  datatype Outcome = Outcome(frame: FrameData, rest: seq<byte>)

  function HeaderOf(first: byte, second: byte): FrameData {
    CLEARED.(fin := first / 0x80 == 1,
             rsv1 := first / 0x40 % 2 == 1,
             rsv2 := first / 0x20 % 2 == 1,
             rsv3 := first / 0x10 % 2 == 1,
             opCode := first % 0x10,
             length := second % 0x80)
  }

  /** The protocol error of a frame header, or `NoReason`. */
  function HeaderFault(f: FrameData): Reason {
    if f.rsv1 || f.rsv2 || f.rsv3 then RsvNonZero
    else if IsOpCodeReserved(f.opCode) then ReservedOpCode
    else if f.IsControl() && f.length > 125 then ControlFrameTooLarge
    else if f.IsControl() && !f.fin then ControlFrameFragmented
    else NoReason
  }

  function TimedOutAt(s: seq<byte>): Outcome {
    Outcome(Failed(CLOSE_GOING_AWAY, ReadTimeout), s)
  }

  /** The frame at the start of `s`, where `s` is everything that arrives before a time-out. */
  function ParseFrame(s: seq<byte>): (o: Outcome)
    ensures |o.rest| <= |s| && o.rest == s[|s| - |o.rest|..]
    ensures o.frame.closeReason != ReadTimeout ==> |o.rest| + 2 <= |s|
    ensures o.frame.valid ==> o.frame.closeReason == NoReason
  {
    if |s| < 2 then TimedOutAt(s)
    else
      var f := HeaderOf(s[0], s[1]);
      if HeaderFault(f) != NoReason then Outcome(Failed(CLOSE_PROTOCOL_ERROR, HeaderFault(f)), s[2..])
      else
        var o := ParseLength(f.(valid := true), s[1] / 0x80 == 1, s[2..]);
        assert s[2..][|s[2..]| - |o.rest|..] == s[|s| - |o.rest|..];
        o
  }

  function ParseLength(f: FrameData, hasMask: bool, s: seq<byte>): (o: Outcome)
    ensures |o.rest| <= |s| && o.rest == s[|s| - |o.rest|..]
    ensures o.frame.valid ==> o.frame.closeReason == f.closeReason
  {
    if f.length == 126 then
      if |s| < 2 then TimedOutAt(s)
      else
        var n := FromBigEndian(s[..2]);
        if n < 126 then Outcome(Failed(CLOSE_PROTOCOL_ERROR, LengthBelow126), s[2..])
        else
          var o := ParseMask(f, hasMask, n, s[2..]);
          assert s[2..][|s[2..]| - |o.rest|..] == s[|s| - |o.rest|..];
          o
    else if f.length == 127 then
      if |s| < 8 then TimedOutAt(s)
      else
        var n := FromBigEndian(s[..8]);
        if n >= 0x8000_0000_0000_0000 then Outcome(Failed(CLOSE_PROTOCOL_ERROR, LengthHighBitSet), s[8..])
        else if n <= 0xFFFF then Outcome(Failed(CLOSE_PROTOCOL_ERROR, LengthBelow65536), s[8..])
        else
          var o := ParseMask(f, hasMask, n, s[8..]);
          assert s[8..][|s[8..]| - |o.rest|..] == s[|s| - |o.rest|..];
          o
    else ParseMask(f, hasMask, f.length, s)
  }

  function ParseMask(f: FrameData, hasMask: bool, n: nat, s: seq<byte>): (o: Outcome)
    ensures |o.rest| <= |s| && o.rest == s[|s| - |o.rest|..]
    ensures o.frame.valid ==> o.frame.closeReason == f.closeReason
  {
    if !hasMask then ParsePayload(f, false, n, s)
    else if |s| < 4 then TimedOutAt(s)
    else
      BigEndianCanonical(s[..4]);
      assert Pow256(4) == 0x1_0000_0000;
      var o := ParsePayload(f.(mask := FromBigEndian(s[..4])), true, n, s[4..]);
      assert s[4..][|s[4..]| - |o.rest|..] == s[|s| - |o.rest|..];
      o
  }

  function ParsePayload(f: FrameData, hasMask: bool, n: nat, s: seq<byte>): (o: Outcome)
    ensures |o.rest| <= |s| && o.rest == s[|s| - |o.rest|..]
    ensures o.frame.valid ==> o.frame.closeReason == f.closeReason
  {
    if n == 0 then Outcome(f, s)
    else if n > MAX_FRAME_SIZE then Outcome(Failed(CLOSE_TOO_MUCH_DATA, FrameSizeExceeded), s)
    else if |s| < n then TimedOutAt(s)
    else Outcome(f.(payload := if hasMask then Masked(s[..n], f.mask) else s[..n]), s[n..])
  }

  lemma PayloadKeepsOpCode(f: FrameData, hasMask: bool, n: nat, s: seq<byte>)
    ensures var o := ParsePayload(f, hasMask, n, s); o.frame.valid ==> o.frame.opCode == f.opCode
  {
    hide Masked;
  }

  lemma MaskKeepsOpCode(f: FrameData, hasMask: bool, n: nat, s: seq<byte>)
    ensures var o := ParseMask(f, hasMask, n, s); o.frame.valid ==> o.frame.opCode == f.opCode
  {
    hide ParsePayload;
    if !hasMask {
      PayloadKeepsOpCode(f, false, n, s);
    } else if |s| >= 4 {
      BigEndianCanonical(s[..4]);
      assert Pow256(4) == 0x1_0000_0000;
      PayloadKeepsOpCode(f.(mask := FromBigEndian(s[..4])), true, n, s[4..]);
    }
  }

  lemma LengthKeepsOpCode(f: FrameData, hasMask: bool, s: seq<byte>)
    ensures var o := ParseLength(f, hasMask, s); o.frame.valid ==> o.frame.opCode == f.opCode
  {
    hide ParseMask, FromBigEndian;
    if f.length == 126 {
      if |s| >= 2 {
        MaskKeepsOpCode(f, hasMask, FromBigEndian(s[..2]), s[2..]);
      }
    } else if f.length == 127 {
      if |s| >= 8 {
        MaskKeepsOpCode(f, hasMask, FromBigEndian(s[..8]), s[8..]);
      }
    } else {
      MaskKeepsOpCode(f, hasMask, f.length, s);
    }
  }

  /** A valid frame has an opcode that the protocol defines. */
  lemma ValidFrameIsKnown(s: seq<byte>)
    ensures ParseFrame(s).frame.valid ==> !IsOpCodeReserved(ParseFrame(s).frame.opCode)
  {
    hide ParseLength;
    if |s| >= 2 {
      LengthKeepsOpCode(HeaderOf(s[0], s[1]).(valid := true), s[1] / 0x80 == 1, s[2..]);
    }
  }

  // ---------- The socket ----------

  /** How one wait for more data ends. */
  datatype Wait = Arrived(data: seq<byte>) | TimedOut

  /** All bytes that arrive before the first time-out. */
  function BeforeTimeout(schedule: seq<Wait>): seq<byte> {
    if schedule == [] || schedule[0].TimedOut? then []
    else schedule[0].data + BeforeTimeout(schedule[1..])
  }

  /** All bytes that arrive after the first time-out. */
  function AfterTimeout(schedule: seq<Wait>): seq<byte> {
    if schedule == [] then []
    else if schedule[0].TimedOut? then AllData(schedule[1..])
    else AfterTimeout(schedule[1..])
  }

  function AllData(schedule: seq<Wait>): seq<byte> {
    if schedule == [] then []
    else (if schedule[0].Arrived? then schedule[0].data else []) + AllData(schedule[1..])
  }

  predicate NoTimeout(schedule: seq<Wait>) {
    forall i :: 0 <= i < |schedule| ==> schedule[i].Arrived?
  }

  lemma {:induction false} TimeoutSplitsData(schedule: seq<Wait>)
    ensures AllData(schedule) == BeforeTimeout(schedule) + AfterTimeout(schedule)
    ensures NoTimeout(schedule) ==> AfterTimeout(schedule) == []
  {
    if schedule == [] {
    } else {
      TimeoutSplitsData(schedule[1..]);
    }
  }

  /** The readable side of the socket: the bytes received so far and the outcomes of the waits to come. */
  class Device {
    var buffer: seq<byte>
    var schedule: seq<Wait>

    constructor (buffer: seq<byte>, schedule: seq<Wait>)
      ensures this.buffer == buffer && this.schedule == schedule
    {
      this.buffer, this.schedule := buffer, schedule;
    }

    /** What a reader sees that waits until the first time-out. */
    function Visible(): seq<byte>
      reads this
    {
      buffer + BeforeTimeout(schedule)
    }

    /** Every byte not read yet. */
    function Unread(): seq<byte>
      reads this
    {
      buffer + AllData(schedule)
    }

    /** The part of `Unread` behind the first time-out. */
    function Later(): seq<byte>
      reads this
    {
      AfterTimeout(schedule)
    }

    lemma UnreadSplits()
      ensures Unread() == Visible() + Later()
    {
      TimeoutSplitsData(schedule);
    }

    method Read(n: nat) returns (data: seq<byte>)
      requires n <= |buffer|
      modifies this
      ensures data == old(buffer[..n]) && buffer == old(buffer[n..]) && schedule == old(schedule)
      ensures data == old(Visible())[..n] && Visible() == old(Visible())[n..]
    {
      data, buffer := buffer[..n], buffer[n..];
    }

    method WaitForReadyRead() returns (ready: bool)
      modifies this
      ensures Unread() == old(Unread())
      ensures ready ==> |schedule| < |old(schedule)| && Visible() == old(Visible()) && Later() == old(Later())
      ensures !ready ==> buffer == old(buffer) == old(Visible()) && Unread() == buffer + old(Later())
    {
      TimeoutSplitsData(schedule);
      if schedule == [] {
        return false;
      }
      var next := schedule[0];
      schedule := schedule[1..];
      if next.TimedOut? {
        return false;
      }
      assert buffer + (next.data + BeforeTimeout(schedule)) == buffer + next.data + BeforeTimeout(schedule);
      assert buffer + (next.data + AllData(schedule)) == buffer + next.data + AllData(schedule);
      buffer := buffer + next.data;
      return true;
    }
  }

  // ---------- The resumable reader ----------

  datatype ProcessingState =
    | ReadHeader
    | ReadPayloadLength
    | ReadBigPayloadLength
    | ReadMask
    | ReadPayload
    | DispatchResult
    | WaitForMoreData
  {
    function Rank(): nat {
      match this
      case ReadHeader => 5
      case ReadPayloadLength => 4
      case ReadBigPayloadLength => 4
      case ReadMask => 3
      case ReadPayload => 2
      case DispatchResult => 1
      case WaitForMoreData => 0
    }
  }

  /** What is still to come when the reader stands in `state` and `s` is visible. */
  function Resume(state: ProcessingState, f: FrameData, hasMask: bool, payloadLength: nat, s: seq<byte>): Outcome
    requires state == ReadPayloadLength ==> f.length == 126
    requires state == ReadBigPayloadLength ==> f.length == 127
  {
    match state
    case ReadHeader => ParseFrame(s)
    case ReadPayloadLength => ParseLength(f, hasMask, s)
    case ReadBigPayloadLength => ParseLength(f, hasMask, s)
    case ReadMask => ParseMask(f, true, payloadLength, s)
    case ReadPayload => ParsePayload(f, hasMask, payloadLength, s)
    case DispatchResult => Outcome(f, s)
    case WaitForMoreData => Outcome(f, s)
  }

  /** The bytes a state has to find in the buffer before it can go on. */
  function Needed(state: ProcessingState, payloadLength: nat): nat {
    match state
    case ReadHeader => 2
    case ReadPayloadLength => 2
    case ReadBigPayloadLength => 8
    case ReadMask => 4
    case ReadPayload => if payloadLength > MAX_FRAME_SIZE then 0 else payloadLength
    case DispatchResult => 0
    case WaitForMoreData => 0
  }

  lemma StarvedReadTimesOut(state: ProcessingState, f: FrameData, hasMask: bool, payloadLength: nat, s: seq<byte>)
    requires state == ReadPayloadLength ==> f.length == 126
    requires state == ReadBigPayloadLength ==> f.length == 127
    requires |s| < Needed(state, payloadLength)
    ensures Resume(state, f, hasMask, payloadLength, s) == TimedOutAt(s)
  {
  }

  class WebSocketFrame {
    var closeCode: nat
    var closeReason: Reason
    var mask: Key
    var opCode: OpCode
    var length: byte
    var payload: seq<byte>
    var fin: bool
    var rsv1: bool
    var rsv2: bool
    var rsv3: bool
    var valid: bool

    function Data(): FrameData
      reads this
    {
      FrameData(closeCode, closeReason, mask, opCode, length, payload, fin, rsv1, rsv2, rsv3, valid)
    }

    constructor ()
      ensures Data() == CLEARED
    {
      closeCode, closeReason, mask, opCode, length := CLOSE_NORMAL, NoReason, 0, OP_RESERVED_C, 0;
      payload, fin, rsv1, rsv2, rsv3, valid := [], true, false, false, false, false;
    }

    method Clear()
      modifies this
      ensures Data() == CLEARED
    {
      closeCode, closeReason, fin, mask := CLOSE_NORMAL, NoReason, true, 0;
      rsv1, rsv2, rsv3 := false, false, false;
      opCode, length, payload, valid := OP_RESERVED_C, 0, [], false;
    }

    method SetError(code: nat, reason: Reason)
      modifies this
      ensures Data() == Failed(code, reason)
    {
      Clear();
      closeCode := code;
      closeReason := reason;
      valid := false;
    }

    method CheckValidity() returns (ok: bool)
      modifies this
      ensures var fault := HeaderFault(old(Data()));
        && ok == (fault == NoReason)
        && Data() == if ok then old(Data()).(valid := true) else Failed(CLOSE_PROTOCOL_ERROR, fault)
    {
      if rsv1 || rsv2 || rsv3 {
        SetError(CLOSE_PROTOCOL_ERROR, RsvNonZero);
      } else if IsOpCodeReserved(opCode) {
        SetError(CLOSE_PROTOCOL_ERROR, ReservedOpCode);
      } else if IsControlOpCode(opCode) {
        if length > 125 {
          SetError(CLOSE_PROTOCOL_ERROR, ControlFrameTooLarge);
        } else if !fin {
          SetError(CLOSE_PROTOCOL_ERROR, ControlFrameFragmented);
        } else {
          valid := true;
        }
      } else {
        valid := true;
      }
      ok := valid;
    }

    method TakeHeaderBits(first: byte, second: byte) returns (hasMask: bool)
      requires Data() == CLEARED
      modifies this
      ensures Data() == HeaderOf(first, second) && hasMask == (second / 0x80 == 1)
    {
      fin := first / 0x80 == 1;
      rsv1 := first / 0x40 % 2 == 1;
      rsv2 := first / 0x20 % 2 == 1;
      rsv3 := first / 0x10 % 2 == 1;
      opCode := first % 0x10;
      hasMask := second / 0x80 == 1;
      length := second % 0x80;
    }

    /** Reads the two header bytes and picks the next state. */
    method ReadHeaderBytes(device: Device)
      returns (state: ProcessingState, hasMask: bool, payloadLength: nat)
      requires Data() == CLEARED
      requires |device.buffer| >= 2
      modifies this, device
      ensures device.schedule == old(device.schedule)
      ensures state.Rank() < ReadHeader.Rank() && Fits(state, hasMask)
      ensures Resume(state, Data(), hasMask, payloadLength, device.Visible()) == ParseFrame(old(device.Visible()))
    {
      var header := device.Read(2);
      hasMask := TakeHeaderBits(header[0], header[1]);
      payloadLength := 0;
      if length == 126 {
        state := ReadPayloadLength;
      } else if length == 127 {
        state := ReadBigPayloadLength;
      } else {
        payloadLength := length;
        state := if hasMask then ReadMask else ReadPayload;
      }
      var ok := CheckValidity();
      if !ok {
        state := DispatchResult;
      }
    }

    /** The state can be entered with the header read so far. */
    predicate Fits(state: ProcessingState, hasMask: bool)
      reads this
    {
      && state != WaitForMoreData
      && (state == ReadHeader ==> Data() == CLEARED)
      && (state == ReadPayloadLength ==> length == 126)
      && (state == ReadBigPayloadLength ==> length == 127)
      && (state == ReadMask ==> hasMask)
    }

    method ReadShortLength(device: Device, hasMask: bool) returns (state: ProcessingState, payloadLength: nat)
      requires length == 126 && |device.buffer| >= 2
      modifies this, device
      ensures device.schedule == old(device.schedule)
      ensures state.Rank() < ReadPayloadLength.Rank() && Fits(state, hasMask)
      ensures Resume(state, Data(), hasMask, payloadLength, device.Visible())
           == old(ParseLength(Data(), hasMask, device.Visible()))
    {
      var bytes := device.Read(2);
      payloadLength := FromBigEndian(bytes);
      if payloadLength < 126 {
        SetError(CLOSE_PROTOCOL_ERROR, LengthBelow126);
        state := DispatchResult;
      } else {
        state := if hasMask then ReadMask else ReadPayload;
      }
    }

    method ReadLongLength(device: Device, hasMask: bool) returns (state: ProcessingState, payloadLength: nat)
      requires length == 127 && |device.buffer| >= 8
      modifies this, device
      ensures device.schedule == old(device.schedule)
      ensures state.Rank() < ReadBigPayloadLength.Rank() && Fits(state, hasMask)
      ensures Resume(state, Data(), hasMask, payloadLength, device.Visible())
           == old(ParseLength(Data(), hasMask, device.Visible()))
    {
      var bytes := device.Read(8);
      payloadLength := FromBigEndian(bytes);
      if payloadLength >= 0x8000_0000_0000_0000 {
        SetError(CLOSE_PROTOCOL_ERROR, LengthHighBitSet);
        state := DispatchResult;
      } else if payloadLength <= 0xFFFF {
        SetError(CLOSE_PROTOCOL_ERROR, LengthBelow65536);
        state := DispatchResult;
      } else {
        state := if hasMask then ReadMask else ReadPayload;
      }
    }

    method ReadMaskKey(device: Device, ghost payloadLength: nat)
      requires |device.buffer| >= 4
      modifies this, device
      ensures device.schedule == old(device.schedule)
      ensures ParsePayload(Data(), true, payloadLength, device.Visible())
           == ParseMask(old(Data()), true, payloadLength, old(device.Visible()))
    {
      var key := device.Read(4);
      BigEndianCanonical(key);
      assert Pow256(4) == 0x1_0000_0000;
      mask := FromBigEndian(key);
    }

    /** Takes the payload from the buffer and unmasks it in place. */
    method TakePayload(device: Device, hasMask: bool, payloadLength: nat)
      requires Needed(ReadPayload, payloadLength) <= |device.buffer|
      modifies this, device
      ensures device.schedule == old(device.schedule)
      ensures Outcome(Data(), device.Visible()) == old(ParsePayload(Data(), hasMask, payloadLength, device.Visible()))
    {
      if payloadLength == 0 {
      } else if payloadLength > MAX_FRAME_SIZE {
        SetError(CLOSE_TOO_MUCH_DATA, FrameSizeExceeded);
      } else {
        var data := device.Read(payloadLength);
        var bytes := new byte[payloadLength](i requires 0 <= i < payloadLength => data[i]);
        assert bytes[..] == data;
        if hasMask {
          Mask(bytes, 0, payloadLength, mask);
          assert bytes[..] == Masked(data, mask);
        }
        payload := bytes[..];
      }
    }
  }

  /** Waits for more data: the reader goes on in the state it came from, or the frame is a time-out. */
  method AwaitData(device: Device, frame: WebSocketFrame, returnState: ProcessingState, hasMask: bool,
                   payloadLength: nat, ghost goal: Outcome, ghost later: seq<byte>)
    returns (state: ProcessingState, ghost timedOut: bool)
    requires frame.Fits(returnState, hasMask) && |device.buffer| < Needed(returnState, payloadLength)
    requires Pending(returnState, frame.Data(), hasMask, payloadLength, device, false, goal, later)
    modifies device, frame
    ensures frame.Fits(state, hasMask)
    ensures Pending(state, frame.Data(), hasMask, payloadLength, device, timedOut, goal, later)
    ensures timedOut ==> state == DispatchResult
    ensures !timedOut ==> state == returnState && |device.schedule| < |old(device.schedule)|
  {
    hide Resume, Needed, ParseFrame, Device.Visible, Device.Unread, Device.Later;
    timedOut := false;
    var ready := device.WaitForReadyRead();
    if !ready {
      StarvedReadTimesOut(returnState, frame.Data(), hasMask, payloadLength, device.buffer);
      frame.SetError(CLOSE_GOING_AWAY, ReadTimeout);
      state, timedOut := DispatchResult, true;
    } else {
      state := returnState;
    }
  }

  /**
   Reads one frame. However the bytes arrive, the frame and the unread bytes are those of the one-shot
   parser on everything that arrives before the first time-out.
   */
  method ReadFrame(device: Device) returns (frame: WebSocketFrame)
    modifies device
    ensures fresh(frame)
    ensures frame.Data() == ParseFrame(old(device.Visible())).frame
    ensures device.Unread() == ParseFrame(old(device.Visible())).rest + old(device.Later())
    ensures frame.closeReason != ReadTimeout ==>
              device.Visible() == ParseFrame(old(device.Visible())).rest && device.Later() == old(device.Later())
  {
    hide ParseFrame, ParseLength, ParseMask, ParsePayload, Device.Visible, Device.Unread;
    frame := new WebSocketFrame();
    var state, returnState := ReadHeader, ReadHeader;
    var hasMask, isDone := false, false;
    var payloadLength: nat := 0;
    ghost var goal, later, timedOut := ParseFrame(device.Visible()), device.Later(), false;
    ghost var at := ReadHeader;  // the state to go on with
    while !isDone
      invariant fresh(frame)
      invariant at == if state == WaitForMoreData then returnState else state
      invariant frame.Fits(at, hasMask)
      invariant Pending(at, frame.Data(), hasMask, payloadLength, device, timedOut, goal, later)
      invariant state == WaitForMoreData ==> |device.buffer| < Needed(returnState, payloadLength) && !timedOut
      invariant isDone ==> state == DispatchResult
      decreases !isDone, at.Rank(), |device.schedule|,
                state != WaitForMoreData
    {
      match state {
      case WaitForMoreData =>
        state, timedOut := AwaitData(device, frame, returnState, hasMask, payloadLength, goal, later);
      case ReadHeader =>
        if |device.buffer| >= 2 {
          state, hasMask, payloadLength := frame.ReadHeaderBytes(device);
        } else {
          state, returnState := WaitForMoreData, state;
        }
      case ReadPayloadLength =>
        if |device.buffer| >= 2 {
          state, payloadLength := frame.ReadShortLength(device, hasMask);
        } else {
          state, returnState := WaitForMoreData, state;
        }
      case ReadBigPayloadLength =>
        if |device.buffer| >= 8 {
          state, payloadLength := frame.ReadLongLength(device, hasMask);
        } else {
          state, returnState := WaitForMoreData, state;
        }
      case ReadMask =>
        if |device.buffer| >= 4 {
          frame.ReadMaskKey(device, payloadLength);
          state := ReadPayload;
        } else {
          state, returnState := WaitForMoreData, state;
        }
      case ReadPayload =>
        if |device.buffer| >= Needed(ReadPayload, payloadLength) {
          frame.TakePayload(device, hasMask, payloadLength);
          state := DispatchResult;
        } else {
          state, returnState := WaitForMoreData, state;
        }
      case DispatchResult =>
        isDone := true;
      }
      at := if state == WaitForMoreData then returnState else state;
    }
    device.UnreadSplits();
  }

  /** Reading on from `state` leads to `goal`, or the read has timed out and `goal` says so. */
  ghost predicate Pending(state: ProcessingState, f: FrameData, hasMask: bool, payloadLength: nat,
                          device: Device, timedOut: bool, goal: Outcome, later: seq<byte>)
    requires state == ReadPayloadLength ==> f.length == 126
    requires state == ReadBigPayloadLength ==> f.length == 127
    reads device
  {
    if timedOut then
      state == DispatchResult && f.closeReason == ReadTimeout && f == goal.frame && device.Unread() == goal.rest + later
    else
      && Resume(state, f, hasMask, payloadLength, device.Visible()) == goal
      && device.Later() == later
  }
}
