/**
 * UTF-8 Encoded Strings (section 1.5.4 of MQTT 5.0): a Two Byte Integer
 * length, high byte first, followed by that many bytes of character data.
 * `EncodedString` is the layout, `DecodeString` reads it back, and
 * `EncodeString` is the test helper `encodeString` that writes the layout
 * into a buffer with a byte-by-byte copy standing in for `memcpy`.
 */
module Utf8String {
  import opened MqttTypes
  import opened Bytes

  /** The on-wire form of the string `s`. */
  function EncodedString(s: seq<byte>): (r: seq<byte>)
    requires |s| <= 0xFFFF
    ensures |r| == |s| + 2
    ensures Uint16Decode(r) == |s|
  {
    Uint16Bytes(|s|) + s
  }

  /**
   * Reads one encoded string from the front of `buf`: the string and the
   * number of bytes it occupied, or None when `buf` is too short for the
   * length prefix or for the bytes the prefix announces.
   */
  function DecodeString(buf: seq<byte>): (r: Option<(seq<byte>, nat)>)
    ensures r.Some? ==> r.value.1 == |r.value.0| + 2 <= |buf|
  {
    if |buf| < 2 then None
    else
      var n := Uint16Decode(buf);
      if |buf| < 2 + n then None else Some((buf[2..2 + n], 2 + n))
  }

  /** Decoding an encoded string, whatever follows it, gives the string back and its size. */
  lemma {:induction false} StringRoundTrip(s: seq<byte>, rest: seq<byte>)
    requires |s| <= 0xFFFF
    ensures DecodeString(EncodedString(s) + rest) == Some((s, |s| + 2))
  {
    var buf := EncodedString(s) + rest;
    assert buf[..2] == EncodedString(s)[..2];
    assert Uint16Decode(buf) == |s|;
    assert buf[2..2 + |s|] == s;
  }

  /** Whatever `DecodeString` accepts is exactly an encoded string followed by the rest of the buffer. */
  lemma {:induction false} DecodedIsEncodedString(buf: seq<byte>)
    requires DecodeString(buf).Some?
    ensures |DecodeString(buf).value.0| <= 0xFFFF
    ensures buf[..DecodeString(buf).value.1] == EncodedString(DecodeString(buf).value.0)
  {
    var s := DecodeString(buf).value.0;
    Uint16SplitDecode(buf);
    assert buf[..|s| + 2] == buf[..2] + s;
  }

  /**
   * encodeString: writes the high and low length bytes at `start`, then
   * the first `sourceLength` bytes of `source`, and returns the number of
   * bytes written. Nothing outside those bytes changes.
   */
  method EncodeString(dest: array<byte>, start: nat, source: seq<byte>, sourceLength: uint16)
    returns (written: nat)
    requires sourceLength <= |source|
    requires start + 2 + sourceLength <= dest.Length
    modifies dest
    ensures written == sourceLength + 2
    ensures dest[start..start + written] == EncodedString(source[..sourceLength])
    ensures forall k :: 0 <= k < dest.Length && !(start <= k < start + written) ==> dest[k] == old(dest[k])
  {
    dest[start] := Uint16HighByte(sourceLength);
    dest[start + 1] := Uint16LowByte(sourceLength);
    var i := 0;
    while i < sourceLength
      invariant 0 <= i <= sourceLength
      invariant dest[start] == Uint16HighByte(sourceLength) && dest[start + 1] == Uint16LowByte(sourceLength)
      invariant forall k :: start + 2 <= k < start + 2 + i ==> dest[k] == source[k - start - 2]
      invariant forall k :: 0 <= k < dest.Length && !(start <= k < start + 2 + i) ==> dest[k] == old(dest[k])
    {
      dest[start + 2 + i] := source[i];
      i := i + 1;
    }
    written := sourceLength + 2;
    assert dest[start..start + written] == EncodedString(source[..sourceLength]);
  }
}
