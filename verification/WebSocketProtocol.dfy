/** Opcodes, close codes, byte order and payload masking (RFC 6455, sections 5.2, 5.3 and 7.4). */
module WebSocketProtocol {

  type byte = b: int | 0 <= b < 256
  type Key = k: int | 0 <= k < 0x1_0000_0000
  type OpCode = c: int | 0 <= c < 16

  /** Text is a sequence of UTF-16 code units. */
  type CodeUnit = u: int | 0 <= u < 0x1_0000
  type Text = seq<CodeUnit>

  const OP_CONTINUE: OpCode := 0x0
  const OP_TEXT: OpCode := 0x1
  const OP_BINARY: OpCode := 0x2
  const OP_CLOSE: OpCode := 0x8
  const OP_PING: OpCode := 0x9
  const OP_PONG: OpCode := 0xA
  const OP_RESERVED_C: OpCode := 0xC

  const CLOSE_NORMAL := 1000
  const CLOSE_GOING_AWAY := 1001
  const CLOSE_PROTOCOL_ERROR := 1002
  const CLOSE_RESERVED_1004 := 1004
  const CLOSE_MISSING_STATUS_CODE := 1005
  const CLOSE_ABNORMAL_DISCONNECTION := 1006
  const CLOSE_WRONG_DATATYPE := 1007
  const CLOSE_TOO_MUCH_DATA := 1009

  const INT_MAX := 0x7FFF_FFFF
  const MAX_FRAME_SIZE := INT_MAX - 1
  const MAX_MESSAGE_SIZE := INT_MAX - 1

  predicate IsOpCodeReserved(code: OpCode) {
    OP_BINARY < code < OP_CLOSE || code > OP_PONG
  }

  predicate IsControlOpCode(code: OpCode) {
    code / 8 % 2 == 1
  }

  predicate IsCloseCodeValid(code: int) {
    && 999 < code < 5000
    && code != CLOSE_RESERVED_1004
    && code != CLOSE_MISSING_STATUS_CODE
    && code != CLOSE_ABNORMAL_DISCONNECTION
    && (code >= 3000 || code < 1012)
  }

  /** The valid codes in numbers: those defined by the protocol, and the ranges for libraries and applications. */
  lemma ValidCloseCodes(code: int)
    ensures IsCloseCodeValid(code) <==> 1000 <= code <= 1003 || 1007 <= code <= 1011 || 3000 <= code <= 4999
  {
  }

  // ---------- Big-endian numbers ----------

  function Pow256(n: nat): (p: nat)
    ensures p >= 1
  {
    if n == 0 then 1 else 256 * Pow256(n - 1)
  }

  /** The lowest `width` bytes of `v`, most significant byte first. */
  function ToBigEndian(v: nat, width: nat): (s: seq<byte>)
    ensures |s| == width
  {
    if width == 0 then [] else ToBigEndian(v / 256, width - 1) + [v % 256]
  }

  function FromBigEndian(s: seq<byte>): nat {
    if s == [] then 0 else FromBigEndian(s[..|s| - 1]) * 256 + s[|s| - 1]
  }

  lemma {:induction false} BigEndianRoundTrip(v: nat, width: nat)
    requires v < Pow256(width)
    ensures FromBigEndian(ToBigEndian(v, width)) == v
  {
    if width == 0 {
    } else {
      BigEndianRoundTrip(v / 256, width - 1);
      var s := ToBigEndian(v, width);
      assert s[..|s| - 1] == ToBigEndian(v / 256, width - 1);
    }
  }

  lemma {:induction false} BigEndianCanonical(s: seq<byte>)
    ensures FromBigEndian(s) < Pow256(|s|)
    ensures ToBigEndian(FromBigEndian(s), |s|) == s
  {
    if s == [] {
    } else {
      var init, last := s[..|s| - 1], s[|s| - 1];
      BigEndianCanonical(init);
      assert (FromBigEndian(init) * 256 + last) / 256 == FromBigEndian(init);
      assert s == init + [last];
    }
  }

  /** The first byte is the most significant one, and one byte stands for itself. */
  lemma {:induction false} BigEndianOrder(s: seq<byte>)
    requires s != []
    ensures FromBigEndian(s) == s[0] * Pow256(|s| - 1) + FromBigEndian(s[1..])
  {
    if |s| == 1 {
      assert s[..0] == [] && s[1..] == [];
    } else {
      var init, last := s[..|s| - 1], s[|s| - 1];
      BigEndianOrder(init);
      assert init[1..] == s[1..][..|s| - 2];
      MulAssociates(s[0], Pow256(|s| - 2), 256);
    }
  }

  lemma MulAssociates(a: int, b: int, c: int)
    ensures a * b * c == a * (c * b)
  {
  }

  /** Byte `i` of a printed number holds the digit to the base 256 that stands `i` places behind the first. */
  lemma {:induction false} BigEndianDigit(v: nat, width: nat, i: nat)
    requires i < width
    ensures ToBigEndian(v, width)[i] == v / Pow256(width - 1 - i) % 256
  {
    if i < width - 1 {
      BigEndianDigit(v / 256, width - 1, i);
      DivideTwice(v, 256, Pow256(width - 2 - i), Pow256(width - 1 - i));
    } else {
      assert v / 1 == v;
    }
  }

  lemma DivideTwice(v: nat, a: nat, b: nat, d: nat)
    requires a > 0 && b > 0 && d == a * b
    ensures d > 0 && v / a / b == v / d
  {
    var p := v / a;
    var q := p / b;
    Divided(v, a, p);
    Divided(p, b, q);
    Nested(v, a, b, d, p, q);
    QuotientIs(v, d, q);
  }

  lemma Divided(v: nat, a: nat, p: nat)
    requires a > 0 && p == v / a
    ensures p * a <= v < p * a + a
  {
  }

  lemma Nested(v: nat, a: nat, b: nat, d: nat, p: nat, q: nat)
    requires a > 0 && b > 0 && d == a * b
    requires p * a <= v < p * a + a && q * b <= p < q * b + b
    ensures d > 0 && q * d <= v < q * d + d
  {
    var qb := q * b;
    MulKeepsOrder(qb, p, a);
    MulKeepsOrder(p + 1, qb + b, a);
    MulAdds(p, 1, a);
    MulAdds(qb, b, a);
    MulAssociates(q, b, a);
  }

  lemma MulKeepsOrder(x: nat, y: nat, a: nat)
    requires x <= y
    ensures x * a <= y * a
  {
  }

  lemma MulAdds(x: int, y: int, a: int)
    ensures (x + y) * a == x * a + y * a
  {
  }

  lemma QuotientIs(v: nat, d: nat, q: nat)
    requires d > 0 && q * d <= v < q * d + d
    ensures v / d == q
  {
    var p := v / d;
    Divided(v, d, p);
    assert p > q ==> p * d >= (q + 1) * d;
    assert p < q ==> (p + 1) * d <= q * d;
  }

  // ---------- Masking ----------

  /** Bitwise exclusive or of the lowest `bits` bits. */
  function XorBits(a: nat, b: nat, bits: nat): (r: nat) {
    if bits == 0 then 0 else 2 * XorBits(a / 2, b / 2, bits - 1) + (if a % 2 == b % 2 then 0 else 1)
  }

  function Pow2(n: nat): (p: nat)
    ensures p > 0
  {
    if n == 0 then 1 else 2 * Pow2(n - 1)
  }

  lemma {:induction false} XorBitsCancels(a: nat, b: nat, bits: nat)
    ensures XorBits(a, b, bits) < Pow2(bits)
    ensures a < Pow2(bits) ==> XorBits(XorBits(a, b, bits), b, bits) == a
    ensures a < Pow2(bits) ==> XorBits(a, 0, bits) == a
  {
    if bits == 0 {
    } else {
      XorBitsCancels(a / 2, b / 2, bits - 1);
      var x := XorBits(a, b, bits);
      assert x / 2 == XorBits(a / 2, b / 2, bits - 1) && x % 2 == if a % 2 == b % 2 then 0 else 1;
      assert a == 2 * (a / 2) + a % 2;
    }
  }

  /** Each bit of the exclusive or is set exactly if the two bits differ. */
  lemma {:induction false} XorBit(a: nat, b: nat, bits: nat, k: nat)
    requires k < bits
    ensures XorBits(a, b, bits) / Pow2(k) % 2 == 1 <==> a / Pow2(k) % 2 != b / Pow2(k) % 2
  {
    var x := XorBits(a, b, bits);
    assert x / 2 == XorBits(a / 2, b / 2, bits - 1);
    if k > 0 {
      XorBit(a / 2, b / 2, bits - 1, k - 1);
      DivideTwice(x, 2, Pow2(k - 1), Pow2(k));
      DivideTwice(a, 2, Pow2(k - 1), Pow2(k));
      DivideTwice(b, 2, Pow2(k - 1), Pow2(k));
    }
  }

  function Xor(a: byte, b: byte): byte {
    XorBitsCancels(a, b, 8);
    assert Pow2(8) == 256 by { assert Pow2(4) == 16; }
    XorBits(a, b, 8)
  }

  lemma XorCancels(a: byte, b: byte)
    ensures Xor(Xor(a, b), b) == a
    ensures Xor(a, 0) == a
  {
    assert Pow2(8) == 256 by { assert Pow2(4) == 16; }
    XorBitsCancels(a, b, 8);
  }

  /** Byte `i % 4` of the masking key, most significant byte first. */
  function KeyByte(key: Key, i: nat): byte {
    match i % 4
    case 0 => key / 0x1_000000
    case 1 => key / 0x1_0000 % 0x100
    case 2 => key / 0x100 % 0x100
    case _ => key % 0x100
  }

  function Masked(payload: seq<byte>, key: Key): (s: seq<byte>)
    ensures |s| == |payload|
  {
    seq(|payload|, i requires 0 <= i < |payload| => Xor(payload[i], KeyByte(key, i)))
  }

  /**
   Byte `i` is combined with byte `i % 4` of the key, in the order in which the key stands on the wire: each of its
   bits is flipped exactly if that byte of the key has the bit set.
   */
  lemma MaskedByte(payload: seq<byte>, key: Key, i: nat, k: nat)
    requires i < |payload| && k < 8
    ensures var plain, masked, keyByte := payload[i], Masked(payload, key)[i], ToBigEndian(key, 4)[i % 4];
      && masked == Xor(plain, keyByte)
      && (masked / Pow2(k) % 2 != plain / Pow2(k) % 2 <==> keyByte / Pow2(k) % 2 == 1)
  {
    KeyOnTheWire(key, i);
    XorBit(payload[i], ToBigEndian(key, 4)[i % 4], 8, k);
  }

  lemma KeyOnTheWire(key: Key, i: nat)
    ensures KeyByte(key, i) == ToBigEndian(key, 4)[i % 4]
  {
    BigEndianDigit(key, 4, i % 4);
    assert Pow256(2) == 0x1_0000;
    assert Pow256(3) == 0x1_000000;
    assert Pow256(1) == 0x100 && Pow256(0) == 1;
  }

  /** Masking twice with one key restores the payload; the all-zero key changes nothing. */
  lemma MaskingIsAnInvolution(payload: seq<byte>, key: Key)
    ensures Masked(Masked(payload, key), key) == payload
    ensures Masked(payload, 0) == payload
  {
    forall i | 0 <= i < |payload|
      ensures Xor(Xor(payload[i], KeyByte(key, i)), KeyByte(key, i)) == payload[i]
      ensures Xor(payload[i], KeyByte(0, i)) == payload[i]
    {
      XorCancels(payload[i], KeyByte(key, i));
    }
  }

  /** Masks `size` bytes of the buffer in place, beginning at `start`. */
  method Mask(buffer: array<byte>, start: nat, size: nat, key: Key)
    requires start + size <= buffer.Length
    modifies buffer
    ensures buffer[..] == old(buffer[..start]) + Masked(old(buffer[start..start + size]), key)
                          + old(buffer[start + size..])
    ensures forall i :: 0 <= i < size ==>
      buffer[start + i] == Xor(old(buffer[start + i]), ToBigEndian(key, 4)[i % 4])
  {
    var i := 0;
    while i < size
      invariant 0 <= i <= size
      invariant forall k :: 0 <= k < buffer.Length && !(start <= k < start + i) ==> buffer[k] == old(buffer[k])
      invariant forall k :: start <= k < start + i ==>
        buffer[k] == Xor(old(buffer[k]), KeyByte(key, k - start))
    {
      buffer[start + i] := Xor(buffer[start + i], KeyByte(key, i));
      i := i + 1;
    }
    forall k | 0 <= k < size
      ensures buffer[start + k] == Xor(old(buffer[start + k]), ToBigEndian(key, 4)[k % 4])
    {
      KeyOnTheWire(key, k);
    }
  }
}
