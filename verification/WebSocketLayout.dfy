/** The bytes of a frame, one by one (RFC 6455, sections 5.2, 5.3 and 5.5). */
module WebSocketLayout {
  import opened WebSocketProtocol
  import opened WebSocketFrames

  /** The number in two bytes, or in eight, the most significant byte first. */
  function Number16(s: seq<byte>): nat
    requires |s| >= 2
  {
    var high: nat := s[0];
    high * 0x100 + s[1]
  }

  function Number32(s: seq<byte>): nat
    requires |s| >= 4
  {
    Number16(s) * 0x1_0000 + Number16(s[2..])
  }

  function Number64(s: seq<byte>): nat
    requires |s| >= 8
  {
    Number32(s) * 0x1_0000_0000 + Number32(s[4..])
  }

  lemma {:induction false} ParsedNumber(s: seq<byte>)
    requires |s| >= 2
    ensures FromBigEndian(s) == FromBigEndian(s[..|s| - 2]) * 0x1_0000 + Number16(s[|s| - 2..])
  {
    var init := s[..|s| - 1];
    assert init[..|init| - 1] == s[..|s| - 2];
  }

  lemma ParsedNumbers(s: seq<byte>)
    ensures |s| == 2 ==> FromBigEndian(s) == Number16(s)
    ensures |s| == 4 ==> FromBigEndian(s) == Number32(s)
    ensures |s| == 8 ==> FromBigEndian(s) == Number64(s)
  {
    hide FromBigEndian, Number16;
    if |s| == 2 || |s| == 4 || |s| == 8 {
      assert FromBigEndian(s[..0]) == 0 by { NoNumber(s[..0]); }
      ParsedNumber(s[..2]);
      assert s[..2][..0] == s[..0] && s[..2][0..] == s[..2] && Number16(s[..2]) == Number16(s) by { Prefix16(s); }
    }
    if |s| == 4 || |s| == 8 {
      ParsedNumber(s[..4]);
      assert s[..4][..2] == s[..2] && s[..4][2..] == s[2..4] && Number16(s[2..4]) == Number16(s[2..]) by {
        Prefix16(s[2..]);
        assert s[2..4] == s[2..][..2];
      }
    }
    if |s| == 8 {
      ParsedNumber(s[..6]);
      assert s[..6][..4] == s[..4] && s[..6][4..] == s[4..6] && Number16(s[4..6]) == Number16(s[4..]) by {
        Prefix16(s[4..]);
        assert s[4..6] == s[4..][..2];
      }
      ParsedNumber(s);
      assert s[4..][2..] == s[6..];
    }
    assert |s| == 2 ==> s[..2] == s;
    assert |s| == 4 ==> s[..4] == s;
  }

  lemma NoNumber(s: seq<byte>)
    requires s == []
    ensures FromBigEndian(s) == 0
  {
  }

  lemma Prefix16(s: seq<byte>)
    requires |s| >= 2
    ensures Number16(s[..2]) == Number16(s)
  {
  }

  // ---------- A whole frame ----------

  /** Where the bytes of the payload begin. */
  function PayloadStart(second: byte): nat {
    2 + (if second % 0x80 == 126 then 2 else if second % 0x80 == 127 then 8 else 0) + if second >= 0x80 then 4 else 0
  }

  /** The first byte: FIN, three zero bits and a defined opcode; a control frame is final and short. */
  predicate HeaderAllowed(first: byte, second: byte) {
    && first / 0x10 % 8 == 0
    && first % 0x10 in {0x0, 0x1, 0x2, 0x8, 0x9, 0xA}
    && (first % 0x10 >= 0x8 ==> first >= 0x80 && second % 0x80 <= 125)
  }

  /** The length in the shortest of its three forms. */
  predicate LengthLaidOut(s: seq<byte>, n: nat)
    requires |s| >= 2 && |s| >= PayloadStart(s[1])
  {
    if s[1] % 0x80 == 126 then n == Number16(s[2..]) && n >= 126
    else if s[1] % 0x80 == 127 then n == Number64(s[2..]) && n >= 0x1_0000
    else n == s[1] % 0x80
  }

  /** Byte `i` of the payload, combined with byte `i % 4` of the key in front of it if the mask bit is set. */
  predicate PayloadLaidOut(s: seq<byte>, payload: seq<byte>)
    requires |s| >= 2 && |s| >= PayloadStart(s[1]) + |payload|
  {
    var start := PayloadStart(s[1]);
    forall i :: 0 <= i < |payload| ==>
      payload[i] == if s[1] >= 0x80 then Xor(s[start + i], s[start - 4 + i % 4]) else s[start + i]
  }

  /** `s` begins with the bytes of the valid frame `o.frame`, and `o.rest` stands behind them. */
  predicate LaidOut(s: seq<byte>, o: Outcome) {
    var f := o.frame; var n := |f.payload|;
    && |s| >= 2 && HeaderAllowed(s[0], s[1])
    && |s| == PayloadStart(s[1]) + n + |o.rest| && o.rest == s[PayloadStart(s[1]) + n..]
    && LengthLaidOut(s, n) && n <= 0x7FFF_FFFE
    && PayloadLaidOut(s, f.payload)
    && f == FrameData(1000, NoReason, if s[1] >= 0x80 then Number32(s[PayloadStart(s[1]) - 4..]) else 0,
                      s[0] % 0x10, s[1] % 0x80, f.payload, s[0] >= 0x80, false, false, false, true)
  }

  // ---------- The parser reads exactly this layout ----------

  /** The frame without its payload. */
  function HeadOf(s: seq<byte>): FrameData
    requires |s| >= 2 && |s| >= PayloadStart(s[1])
  {
    var masked := s[1] >= 0x80;
    var key: nat := if masked then Number32(s[PayloadStart(s[1]) - 4..]) else 0;
    FrameData(1000, NoReason, key, s[0] % 0x10, s[1] % 0x80, [], s[0] >= 0x80, false, false, false, true)
  }

  /** A header is accepted exactly in these cases; any other draws error 1002 and nothing behind it is read. */
  lemma HeaderStage(s: seq<byte>)
    requires |s| >= 2
    ensures ParseFrame(s) ==
      if HeaderAllowed(s[0], s[1]) then
        ParseLength(CLEARED.(fin := s[0] >= 0x80, opCode := s[0] % 0x10, length := s[1] % 0x80, valid := true),
                    s[1] >= 0x80, s[2..])
      else Outcome(Failed(1002, HeaderFault(HeaderOf(s[0], s[1]))), s[2..])
  {
    hide ParseLength;
    AllowedBits(s[0], s[1]);
  }

  lemma AllowedBits(first: byte, second: byte)
    ensures HeaderFault(HeaderOf(first, second)) == NoReason <==> HeaderAllowed(first, second)
    ensures HeaderAllowed(first, second) ==>
      HeaderOf(first, second) == CLEARED.(fin := first >= 0x80, opCode := first % 0x10, length := second % 0x80)
  {
  }

  lemma LengthStage(f: FrameData, hasMask: bool, s: seq<byte>, n: nat)
    requires if f.length == 126 then |s| >= 2 && n == Number16(s)
             else if f.length == 127 then |s| >= 8 && n == Number64(s) else n == f.length
    ensures var width := if f.length == 126 then 2 else if f.length == 127 then 8 else 0;
      var o := ParseLength(f, hasMask, s);
      if (f.length == 126 ==> n >= 126) && (f.length == 127 ==> 0x1_0000 <= n < 0x8000_0000_0000_0000) then
        o == ParseMask(f, hasMask, n, s[width..])
      else
        !o.frame.valid
  {
    hide ParseMask, Number16, Number64, FromBigEndian;
    if f.length == 126 {
      ParsedNumbers(s[..2]);
      Prefix16(s);
    } else if f.length == 127 {
      ParsedNumbers(s[..8]);
      Prefix64(s);
    } else {
      assert s[0..] == s;
    }
  }

  lemma Prefix32(s: seq<byte>)
    requires |s| >= 4
    ensures Number32(s[..4]) == Number32(s)
  {
  }

  lemma Prefix64(s: seq<byte>)
    requires |s| >= 8
    ensures Number64(s[..8]) == Number64(s)
  {
    hide Number32;
    Prefix32(s);
    Prefix32(s[..8]);
    assert s[..8][..4] == s[..4];
    assert s[..8][4..] == s[4..][..4];
    Prefix32(s[4..]);
  }

  lemma MaskStage(f: FrameData, n: nat, s: seq<byte>)
    requires |s| >= 4
    ensures Number32(s) < 0x1_0000_0000 && ToBigEndian(Number32(s), 4) == s[..4]
    ensures ParseMask(f, true, n, s) == ParsePayload(f.(mask := Number32(s)), true, n, s[4..])
  {
    hide ParsePayload, Number32, FromBigEndian;
    ParsedNumbers(s[..4]);
    Prefix32(s);
    BigEndianCanonical(s[..4]);
    assert Pow256(4) == 0x1_0000_0000;
  }

  /** `payload` is what `key` makes of the bytes at the start of `s`. */
  predicate Combined(payload: seq<byte>, hasMask: bool, key: seq<byte>, s: seq<byte>)
    requires |payload| <= |s| && (hasMask ==> |key| == 4)
  {
    forall i :: 0 <= i < |payload| ==> payload[i] == if hasMask then Xor(s[i], key[i % 4]) else s[i]
  }

  lemma CombinedIsLaidOut(s: seq<byte>, payload: seq<byte>)
    requires |s| >= 2 && |s| >= PayloadStart(s[1]) + |payload|
    ensures var start := PayloadStart(s[1]);
      var key := if s[1] >= 0x80 then s[start - 4..start] else [];
      PayloadLaidOut(s, payload) <==> Combined(payload, s[1] >= 0x80, key, s[start..])
  {
    hide Xor;
    var start := PayloadStart(s[1]);
    assert forall i :: 0 <= i < |payload| ==> s[start..][i] == s[start + i];
    if s[1] >= 0x80 {
      assert forall i :: 0 <= i < |payload| ==> s[start - 4..start][i % 4] == s[start - 4 + i % 4];
    }
  }

  lemma CombinedOnce(a: seq<byte>, b: seq<byte>, hasMask: bool, key: seq<byte>, s: seq<byte>)
    requires |a| == |b| <= |s| && (hasMask ==> |key| == 4)
    requires Combined(a, hasMask, key, s) && Combined(b, hasMask, key, s)
    ensures a == b
  {
    hide Xor;
  }

  /** A payload is taken exactly if it is not too long and all of it is there. */
  lemma PayloadStage(f: FrameData, hasMask: bool, n: nat, s: seq<byte>)
    requires f.payload == [] && f.valid
    ensures var o := ParsePayload(f, hasMask, n, s);
      && (o.frame.valid <==> n == 0 || (n <= 0x7FFF_FFFE && |s| >= n))
      && (o.frame.valid ==>
            && o.frame == f.(payload := o.frame.payload) && |o.frame.payload| == n && |s| >= n && o.rest == s[n..]
            && Combined(o.frame.payload, hasMask, if hasMask then ToBigEndian(f.mask, 4) else [], s))
  {
    hide Masked, Xor, ToBigEndian;
    if n == 0 {
      assert f.(payload := []) == f;
    } else if hasMask && |s| >= n {
      forall i | 0 <= i < n
        ensures Masked(s[..n], f.mask)[i] == Xor(s[i], ToBigEndian(f.mask, 4)[i % 4])
      {
        MaskedByte(s[..n], f.mask, i, 0);
      }
    }
  }

  /** Behind a header and a length that are all there and in order, the parser stands in front of the payload. */
  lemma HeadStage(s: seq<byte>, n: nat)
    requires |s| >= 2 && |s| >= PayloadStart(s[1]) && HeaderAllowed(s[0], s[1])
    requires LengthLaidOut(s, n) && n < 0x8000_0000_0000_0000
    ensures ParseFrame(s) == ParsePayload(HeadOf(s), s[1] >= 0x80, n, s[PayloadStart(s[1])..])
    ensures s[1] >= 0x80 ==> ToBigEndian(HeadOf(s).mask, 4) == s[PayloadStart(s[1]) - 4..PayloadStart(s[1])]
  {
    hide ParseFrame, ParseLength, ParseMask, ParsePayload, Number16, Number32, Number64, ToBigEndian, HeaderAllowed;
    HeaderStage(s);
    var f := CLEARED.(fin := s[0] >= 0x80, opCode := s[0] % 0x10, length := s[1] % 0x80, valid := true);
    LengthStage(f, s[1] >= 0x80, s[2..], n);
    var width := if s[1] % 0x80 == 126 then 2 else if s[1] % 0x80 == 127 then 8 else 0;
    var behind := s[2 + width..];
    assert s[2..][width..] == behind;
    if s[1] >= 0x80 {
      MaskStage(f, n, behind);
      assert behind[4..] == s[PayloadStart(s[1])..];
      assert behind[..4] == s[PayloadStart(s[1]) - 4..PayloadStart(s[1])];
    } else {
      Unmasked(f, n, behind);
    }
  }

  lemma Unmasked(f: FrameData, n: nat, s: seq<byte>)
    ensures ParseMask(f, false, n, s) == ParsePayload(f, false, n, s)
  {
  }

  lemma ValidHead(s: seq<byte>) returns (n: nat)
    requires ParseFrame(s).frame.valid
    ensures |s| >= 2 && |s| >= PayloadStart(s[1]) && HeaderAllowed(s[0], s[1])
    ensures LengthLaidOut(s, n) && n < 0x8000_0000_0000_0000
  {
    hide ParseFrame, ParseLength, ParseMask, ParsePayload, Number32, Number64, HeaderAllowed;
    TooShort(s);
    HeaderStage(s);
    var f := CLEARED.(fin := s[0] >= 0x80, opCode := s[0] % 0x10, length := s[1] % 0x80, valid := true);
    assert ParseLength(f, s[1] >= 0x80, s[2..]).frame.valid;
    LengthIsThere(f, s[1] >= 0x80, s[2..]);
    n := if f.length == 126 then Number16(s[2..]) else if f.length == 127 then Number64(s[2..]) else f.length;
    LengthStage(f, s[1] >= 0x80, s[2..], n);
    var width := if f.length == 126 then 2 else if f.length == 127 then 8 else 0;
    KeyIsThere(f, s[1] >= 0x80, n, s[2..][width..]);
  }

  lemma TooShort(s: seq<byte>)
    ensures |s| < 2 ==> !ParseFrame(s).frame.valid
  {
  }

  lemma LengthIsThere(f: FrameData, hasMask: bool, s: seq<byte>)
    ensures ParseLength(f, hasMask, s).frame.valid && f.length == 126 ==> |s| >= 2
    ensures ParseLength(f, hasMask, s).frame.valid && f.length == 127 ==> |s| >= 8
  {
    hide ParseMask, FromBigEndian;
  }

  lemma KeyIsThere(f: FrameData, hasMask: bool, n: nat, s: seq<byte>)
    ensures ParseMask(f, hasMask, n, s).frame.valid && hasMask ==> |s| >= 4
  {
    hide ParsePayload, FromBigEndian;
  }

  /** For all bytes: the parser accepts a frame exactly if it stands at the start of the bytes in this layout. */
  lemma FrameOnTheWire(s: seq<byte>, o: Outcome)
    ensures ParseFrame(s) == o && o.frame.valid <==> LaidOut(s, o)
  {
    hide ParseFrame, LaidOut;
    if LaidOut(s, o) {
      LaidOutIsRead(s, o);
    }
    if ParseFrame(s).frame.valid {
      ReadIsLaidOut(s);
    }
  }

  lemma ReadIsLaidOut(s: seq<byte>)
    requires ParseFrame(s).frame.valid
    ensures LaidOut(s, ParseFrame(s))
  {
    hide ParseFrame, ParsePayload, HeaderAllowed, PayloadLaidOut, Combined, ToBigEndian, Number32;
    var n := ValidHead(s);
    HeadStage(s, n);
    var start := PayloadStart(s[1]);
    PayloadStage(HeadOf(s), s[1] >= 0x80, n, s[start..]);
    assert s[start..][n..] == s[start + n..];
    CombinedIsLaidOut(s, ParseFrame(s).frame.payload);
  }

  lemma LaidOutIsRead(s: seq<byte>, o: Outcome)
    requires LaidOut(s, o)
    ensures ParseFrame(s) == o && o.frame.valid
  {
    hide ParseFrame, ParsePayload, HeaderAllowed, PayloadLaidOut, Combined, ToBigEndian, Number32;
    var n, start := |o.frame.payload|, PayloadStart(s[1]);
    HeadStage(s, n);
    PayloadStage(HeadOf(s), s[1] >= 0x80, n, s[start..]);
    assert s[start..][n..] == s[start + n..];
    CombinedIsLaidOut(s, o.frame.payload);
    CombinedOnce(ParseFrame(s).frame.payload, o.frame.payload, s[1] >= 0x80,
                 if s[1] >= 0x80 then s[start - 4..start] else [], s[start..]);
  }

  // ---------- What is refused, and with which code ----------

  /** Protocol error before too long, and going away where bytes are missing. */
  function Refusal(s: seq<byte>): nat {
    if |s| < 2 then 1001
    else if !HeaderAllowed(s[0], s[1]) then 1002
    else if s[1] % 0x80 == 126 && |s| < 4 then 1001
    else if s[1] % 0x80 == 127 && |s| < 10 then 1001
    else
      var n := if s[1] % 0x80 == 126 then Number16(s[2..]) else if s[1] % 0x80 == 127 then Number64(s[2..])
               else s[1] % 0x80;
      if s[1] % 0x80 == 126 && n < 126 then 1002
      else if s[1] % 0x80 == 127 && (n < 0x1_0000 || n >= 0x8000_0000_0000_0000) then 1002
      else if |s| < PayloadStart(s[1]) then 1001
      else if n > 0x7FFF_FFFE then 1009
      else 1001
  }

  lemma RefusedWith(s: seq<byte>)
    ensures !ParseFrame(s).frame.valid ==> ParseFrame(s).frame.closeCode == Refusal(s)
  {
    hide ParseLength, Number64, Number16, HeaderAllowed;
    if |s| >= 2 {
      HeaderStage(s);
      if HeaderAllowed(s[0], s[1]) {
        var f := CLEARED.(fin := s[0] >= 0x80, opCode := s[0] % 0x10, length := s[1] % 0x80, valid := true);
        LengthRefused(f, s[1] >= 0x80, s);
      }
    }
  }

  lemma LengthRefused(f: FrameData, hasMask: bool, s: seq<byte>)
    requires |s| >= 2 && HeaderAllowed(s[0], s[1]) && f.length == s[1] % 0x80 && hasMask == (s[1] >= 0x80)
    requires f.valid && f.payload == []
    ensures var o := ParseLength(f, hasMask, s[2..]); !o.frame.valid ==> o.frame.closeCode == Refusal(s)
  {
    hide ParseMask, FromBigEndian, Number64, Number16, HeaderAllowed;
    if f.length == 126 && |s| >= 4 {
      ParsedNumbers(s[2..][..2]);
      Prefix16(s[2..]);
      MaskRefused(f, hasMask, Number16(s[2..]), s[2..][2..]);
    } else if f.length == 127 && |s| >= 10 {
      ParsedNumbers(s[2..][..8]);
      Prefix64(s[2..]);
      MaskRefused(f, hasMask, Number64(s[2..]), s[2..][8..]);
    } else if f.length <= 125 {
      MaskRefused(f, hasMask, f.length, s[2..]);
    }
  }

  lemma MaskRefused(f: FrameData, hasMask: bool, n: nat, s: seq<byte>)
    requires f.valid
    ensures var o := ParseMask(f, hasMask, n, s);
      !o.frame.valid ==>
        o.frame.closeCode == if hasMask && |s| < 4 then 1001 else if n > 0x7FFF_FFFE then 1009 else 1001
  {
    hide FromBigEndian, Masked;
  }
}
