/**
 * Fixed-width unsigned integers and the big-endian byte helpers
 * (UINT16_HIGH_BYTE, UINT16_LOW_BYTE, UINT32_BYTEn, UINT16_DECODE,
 * UINT32_DECODE) used to lay out Two Byte and Four Byte Integers
 * (sections 1.5.2 and 1.5.3 of MQTT 5.0).
 */
module Bytes {

  type byte = x: int | 0 <= x < 0x100
  type uint16 = x: int | 0 <= x < 0x1_0000
  type uint32 = x: int | 0 <= x < 0x1_0000_0000

  /** UINT16_HIGH_BYTE: the value shifted right by 8, cast to uint8_t. */
  function Uint16HighByte(x: uint16): byte { x / 0x100 }

  /** UINT16_LOW_BYTE: the value masked with 0x00ff. */
  function Uint16LowByte(x: uint16): byte { x % 0x100 }

  /** UINT32_BYTE3: the value shifted right by 24, cast to uint8_t. */
  function Uint32Byte3(x: uint32): byte { x / 0x100_0000 }

  /** UINT32_BYTE2: the value shifted right by 16, cast to uint8_t. */
  function Uint32Byte2(x: uint32): byte { (x / 0x1_0000) % 0x100 }

  /** UINT32_BYTE1: the value shifted right by 8, cast to uint8_t. */
  function Uint32Byte1(x: uint32): byte { (x / 0x100) % 0x100 }

  /** UINT32_BYTE0: the value masked with 0x000000FF. */
  function Uint32Byte0(x: uint32): byte { x % 0x100 }

  /** UINT16_DECODE: `ptr[0]` is the high byte, `ptr[1]` the low byte. */
  function Uint16Decode(ptr: seq<byte>): uint16
    requires |ptr| >= 2
  {
    (ptr[0] as int) * 0x100 + ptr[1]
  }

  /** UINT32_DECODE: four bytes, most significant first. */
  function Uint32Decode(ptr: seq<byte>): uint32
    requires |ptr| >= 4
  {
    (ptr[0] as int) * 0x100_0000 + (ptr[1] as int) * 0x1_0000 + (ptr[2] as int) * 0x100 + ptr[3]
  }

  /** A Two Byte Integer on the wire: high byte, then low byte. */
  function Uint16Bytes(x: uint16): (s: seq<byte>)
    ensures |s| == 2 && Uint16Decode(s) == x
  {
    [Uint16HighByte(x), Uint16LowByte(x)]
  }

  /** A Four Byte Integer on the wire: BYTE3, BYTE2, BYTE1, BYTE0. */
  function Uint32Bytes(x: uint32): (s: seq<byte>)
    ensures |s| == 4 && Uint32Decode(s) == x
  {
    Uint32Recompose(x);
    [Uint32Byte3(x), Uint32Byte2(x), Uint32Byte1(x), Uint32Byte0(x)]
  }

  /** The four extracted bytes, put back together most significant first, give the value. */
  lemma Uint32Recompose(x: uint32)
    ensures Uint32Decode([Uint32Byte3(x), Uint32Byte2(x), Uint32Byte1(x), Uint32Byte0(x)]) == x
  {
    var q1, b0 := x / 0x100, x % 0x100;
    var q2, b1 := q1 / 0x100, q1 % 0x100;
    var q3, b2 := q2 / 0x100, q2 % 0x100;
    assert x == q2 * 0x1_0000 + (b1 * 0x100 + b0);
    Shift16(q2, b1 * 0x100 + b0);
    assert x == q3 * 0x100_0000 + (b2 * 0x1_0000 + b1 * 0x100 + b0);
    Shift24(q3, b2 * 0x1_0000 + b1 * 0x100 + b0);
  }

  /** Splitting a decoded Two Byte Integer gives back the bytes it came from. */
  lemma Uint16SplitDecode(ptr: seq<byte>)
    requires |ptr| >= 2
    ensures Uint16Bytes(Uint16Decode(ptr)) == ptr[..2]
  {
  }

  /** Splitting a decoded Four Byte Integer gives back the bytes it came from. */
  lemma Uint32SplitDecode(ptr: seq<byte>)
    requires |ptr| >= 4
    ensures Uint32Bytes(Uint32Decode(ptr)) == ptr[..4]
  {
    var p0, p1, p2, p3 := ptr[0] as nat, ptr[1] as nat, ptr[2] as nat, ptr[3] as nat;
    var y1 := p0 * 0x100 + p1;
    var y2 := y1 * 0x100 + p2;
    var x := Uint32Decode(ptr);
    assert x == y2 * 0x100 + p3;
    Shift8(y2, p3);
    Shift8(y1, p2);
    Shift16(y1, p2 * 0x100 + p3);
    Shift24(p0, p1 * 0x1_0000 + p2 * 0x100 + p3);
    Shift8(p0, p1);
  }

  /** Shifting `q * 2^8 + r` right by 8 bits leaves `q`; masking leaves `r`. */
  lemma Shift8(q: nat, r: nat)
    requires r < 0x100
    ensures (q * 0x100 + r) / 0x100 == q && (q * 0x100 + r) % 0x100 == r
  {
  }

  /** Shifting `q * 2^16 + r` right by 16 bits leaves `q`. */
  lemma Shift16(q: nat, r: nat)
    requires r < 0x1_0000
    ensures (q * 0x1_0000 + r) / 0x1_0000 == q
  {
  }

  /** Shifting `q * 2^24 + r` right by 24 bits leaves `q`. */
  lemma Shift24(q: nat, r: nat)
    requires r < 0x100_0000
    ensures (q * 0x100_0000 + r) / 0x100_0000 == q
  {
  }
}
