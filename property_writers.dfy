/**
 * The property writers the deserializer tests use to build packets by hand:
 * each writes a one-byte property identifier followed by a value in the MQTT
 * 5.0 data representation (section 1.5) and returns the index just past what
 * it wrote. The values are the tests' fixed constants; the layout functions
 * take the value as a parameter.
 */
module PropertyWriters {
  import opened MqttTypes
  import opened Bytes
  import opened Utf8String

  /** MQTT_TEST_UINT8, MQTT_TEST_UINT16, MQTT_TEST_UINT32. */
  const TestUint8: byte := 1
  const TestUint16: uint16 := 32
  const TestUint32: uint32 := 300

  /** MQTT_TEST_UTF8_STRING, "test", as its bytes. */
  const TestUtf8String: seq<byte> := [0x74, 0x65, 0x73, 0x74]

  /** MQTT_USER_PROPERTY_ID. */
  const UserPropertyId: byte := 0x26

  /** A property carrying a Four Byte Integer. */
  function Uint32Property(id: byte, value: uint32): (r: seq<byte>)
    ensures |r| == 5 && r[0] == id && Uint32Decode(r[1..]) == value
  {
    [id] + Uint32Bytes(value)
  }

  /** A property carrying a Two Byte Integer. */
  function Uint16Property(id: byte, value: uint16): (r: seq<byte>)
    ensures |r| == 3 && r[0] == id && Uint16Decode(r[1..]) == value
  {
    [id] + Uint16Bytes(value)
  }

  /** A property carrying a single Byte. */
  function Uint8Property(id: byte, value: byte): seq<byte>
  {
    [id, value]
  }

  /** A property carrying one UTF-8 Encoded String. */
  function Utf8Property(id: byte, s: seq<byte>): (r: seq<byte>)
    requires |s| <= 0xFFFF
    ensures |r| == |s| + 3 && r[0] == id
    ensures DecodeString(r[1..]) == Some((s, |s| + 2))
  {
    var r := [id] + EncodedString(s);
    StringRoundTrip(s, []);
    assert r[1..] == EncodedString(s) + [];
    r
  }

  /** A User Property: identifier 0x26, then the key and the value as UTF-8 Encoded Strings. */
  function UserPropertyPair(key: seq<byte>, value: seq<byte>): (r: seq<byte>)
    requires |key| <= 0xFFFF && |value| <= 0xFFFF
    ensures |r| == |key| + |value| + 5 && r[0] == UserPropertyId
    ensures DecodeString(r[1..]) == Some((key, |key| + 2))
    ensures DecodeString(r[|key| + 3..]) == Some((value, |value| + 2))
  {
    var r := [UserPropertyId] + EncodedString(key) + EncodedString(value);
    StringRoundTrip(key, EncodedString(value));
    assert r[1..] == EncodedString(key) + EncodedString(value);
    StringRoundTrip(value, []);
    assert r[|key| + 3..] == EncodedString(value) + [];
    r
  }

  /** serializeuint_32: the identifier, then MQTT_TEST_UINT32 most significant byte first. */
  method SerializeUint32(buf: array<byte>, index: nat, propertyId: byte) returns (next: nat)
    requires index + 5 <= buf.Length
    modifies buf
    ensures next == index + 5
    ensures buf[index..next] == Uint32Property(propertyId, TestUint32)
    ensures forall k :: 0 <= k < buf.Length && !(index <= k < next) ==> buf[k] == old(buf[k])
  {
    buf[index] := propertyId;
    var p := index + 1;
    buf[p] := Uint32Byte3(TestUint32);
    buf[p + 1] := Uint32Byte2(TestUint32);
    buf[p + 2] := Uint32Byte1(TestUint32);
    buf[p + 3] := Uint32Byte0(TestUint32);
    next := p + 4;
  }

  /** serializeuint_16: the identifier, then MQTT_TEST_UINT16 high byte first. */
  method SerializeUint16(buf: array<byte>, index: nat, propertyId: byte) returns (next: nat)
    requires index + 3 <= buf.Length
    modifies buf
    ensures next == index + 3
    ensures buf[index..next] == Uint16Property(propertyId, TestUint16)
    ensures forall k :: 0 <= k < buf.Length && !(index <= k < next) ==> buf[k] == old(buf[k])
  {
    buf[index] := propertyId;
    var p := index + 1;
    buf[p] := Uint16HighByte(TestUint16);
    buf[p + 1] := Uint16LowByte(TestUint16);
    next := p + 2;
  }

  /** serializeuint_8: the identifier, then MQTT_TEST_UINT8. */
  method SerializeUint8(buf: array<byte>, index: nat, propertyId: byte) returns (next: nat)
    requires index + 2 <= buf.Length
    modifies buf
    ensures next == index + 2
    ensures buf[index..next] == Uint8Property(propertyId, TestUint8)
    ensures forall k :: 0 <= k < buf.Length && !(index <= k < next) ==> buf[k] == old(buf[k])
  {
    buf[index] := propertyId;
    var p := index + 1;
    buf[p] := TestUint8;
    next := p + 1;
  }

  /** serializeutf_8: the identifier, then MQTT_TEST_UTF8_STRING through `encodeString`. */
  method SerializeUtf8(buf: array<byte>, index: nat, propertyId: byte) returns (next: nat)
    requires index + 7 <= buf.Length
    modifies buf
    ensures next == index + 7
    ensures buf[index..next] == Utf8Property(propertyId, TestUtf8String)
    ensures forall k :: 0 <= k < buf.Length && !(index <= k < next) ==> buf[k] == old(buf[k])
  {
    buf[index] := propertyId;
    var p := index + 1;
    var dummy := EncodeString(buf, p, TestUtf8String, |TestUtf8String|);
    assert TestUtf8String[..|TestUtf8String|] == TestUtf8String;
    next := p + dummy;
    assert buf[index..next] == [buf[index]] + buf[p..next];
  }

  /** serializeutf_8pair: identifier 0x26, then MQTT_TEST_UTF8_STRING as key and again as value. */
  method SerializeUtf8Pair(buf: array<byte>, index: nat) returns (next: nat)
    requires index + 13 <= buf.Length
    modifies buf
    ensures next == index + 13
    ensures buf[index..next] == UserPropertyPair(TestUtf8String, TestUtf8String)
    ensures forall k :: 0 <= k < buf.Length && !(index <= k < next) ==> buf[k] == old(buf[k])
  {
    assert TestUtf8String[..|TestUtf8String|] == TestUtf8String;
    buf[index] := UserPropertyId;
    var p := index + 1;
    var dummy := EncodeString(buf, p, TestUtf8String, |TestUtf8String|);
    var q := p + dummy;
    assert buf[p..q] == EncodedString(TestUtf8String);
    dummy := EncodeString(buf, q, TestUtf8String, |TestUtf8String|);
    next := q + dummy;
    assert buf[index..next] == [buf[index]] + buf[p..q] + buf[q..next];
  }
}
