# MQTT v5 wire-format helpers, verified in Dafny

The coreMQTT v5 serializer unit tests build packets byte by byte with a set of
small helpers. This project models those helpers and proves what they write:

- The Remaining Length field, a Variable Byte Integer (section 1.5.5 of MQTT 5.0,
  section 2.2.3 of MQTT 3.1.1):
  - `remainingLengthEncodedSize`;
  - `encodeRemainingLength`;
  - a decoder that follows the `decodeVariableLength` algorithm kept as comments
    in the same file.
- UTF-8 Encoded Strings (section 1.5.4), written by `encodeString`.
- The property writers `serializeuint_32`, `serializeuint_16`,
  `serializeuint_8`, `serializeutf_8` and `serializeutf_8pair`. Each writes a
  property identifier and then a Four Byte Integer, a Two Byte Integer, a Byte,
  a string or a User Property string pair (sections 1.5.2, 1.5.3, 1.5.7 and
  2.2.2.2).
- The big-endian byte macros `UINT16_HIGH_BYTE`, `UINT16_LOW_BYTE`,
  `UINT32_BYTEn`, `UINT16_DECODE` and `UINT32_DECODE`.
- `MQTT_GetUserPropertySize`, which validates a list of User Properties and
  adds their encoded size to a running total.
- The buffer guard `padAndResetBuffer` / `checkBufferOverflow`.

Where the C code writes through a pointer, the model takes an `array<byte>`
and a start index. A helper that returns an advanced pointer returns the new
index instead. Macros and the if-chain size function become functions.
Loops stay loops, and each is proved against a specification function:

- `Encoding` is the bytes of the Remaining Length field;
- `Decoding` is the decoder;
- `EncodedString` and `DecodeString` are the string layout and its reader;
- `Uint32Property`, `Uint16Property`, `Uint8Property`, `Utf8Property` and
  `UserPropertyPair` are the property layouts;
- `FirstInvalid` and `PropertiesSize` describe the user-property check;
- `Padded` and `PaddingIntact` describe the guard.

Files:

| file | module | contents |
|---|---|---|
| mqtt_types.dfy | MqttTypes | status codes, `Option`, `Result` |
| bytes.dfy | Bytes | `byte`/`uint16`/`uint32`, the byte macros, decode/extract round trips |
| remaining_length.dfy | RemainingLength | size function, encoder, decoder, their properties |
| utf8_string.dfy | Utf8String | string layout, reader, `encodeString` |
| property_writers.dfy | PropertyWriters | the five property writers and their layouts |
| user_properties.dfy | UserProperties | `MQTT_GetUserPropertySize` and its sums |
| buffer_guard.dfy | BufferGuard | padding, checking, and the pad/serialize/check pattern |

## Model

All source paths are in `test/unit-test/MQTTv5/core_mqttv5_serializer_utest.c`;
the table writes them out in full. Rows marked "body:" are definitions, which
the other rows' contracts are about. Rows marked "proof helper:" are single
steps used by the proofs. The decoder's main properties are
`DecodeEncodeRoundTrip`, `DecodedIsEncoding`, `RejectsFourContinuationBytes`
and `RejectsNonMinimalField`.

| member | source | states |
|---|---|---|
| Bytes.Uint16HighByte | test/unit-test/MQTTv5/core_mqttv5_serializer_utest.c:140 | body: the value shifted right by 8, the high byte |
| Bytes.Uint16LowByte | test/unit-test/MQTTv5/core_mqttv5_serializer_utest.c:145 | body: the value masked with 0xFF, the low byte |
| Bytes.Uint16Decode | test/unit-test/MQTTv5/core_mqttv5_serializer_utest.c:168-170 | body: the first byte times 256 plus the second, as the shift-and-or reads them |
| Bytes.Uint32Decode | test/unit-test/MQTTv5/core_mqttv5_serializer_utest.c:172-176 | body: the four bytes weighted 2^24, 2^16, 2^8 and 1, as the shift-and-or reads them |
| Bytes.Uint32Byte3 | test/unit-test/MQTTv5/core_mqttv5_serializer_utest.c:178 | body: the value shifted right by 24 |
| Bytes.Uint32Byte2 | test/unit-test/MQTTv5/core_mqttv5_serializer_utest.c:180 | body: the value shifted right by 16, truncated to a byte |
| Bytes.Uint32Byte1 | test/unit-test/MQTTv5/core_mqttv5_serializer_utest.c:182 | body: the value shifted right by 8, truncated to a byte |
| Bytes.Uint32Byte0 | test/unit-test/MQTTv5/core_mqttv5_serializer_utest.c:184 | body: the value masked with 0xFF |
| Bytes.Uint16Bytes | test/unit-test/MQTTv5/core_mqttv5_serializer_utest.c:140-145 | UINT16_HIGH_BYTE then UINT16_LOW_BYTE is two bytes that UINT16_DECODE reads back as the value |
| Bytes.Uint32Bytes | test/unit-test/MQTTv5/core_mqttv5_serializer_utest.c:172-184 | UINT32_BYTE3..UINT32_BYTE0 is four bytes that UINT32_DECODE reads back as the value |
| Bytes.Uint32Recompose | test/unit-test/MQTTv5/core_mqttv5_serializer_utest.c:178-184 | the four extracted bytes, weighted 2^24, 2^16, 2^8 and 1, add up to the value |
| Bytes.Uint16SplitDecode | test/unit-test/MQTTv5/core_mqttv5_serializer_utest.c:168-170 | splitting what UINT16_DECODE read gives back the two bytes it read |
| Bytes.Uint32SplitDecode | test/unit-test/MQTTv5/core_mqttv5_serializer_utest.c:172-176 | splitting what UINT32_DECODE read gives back the four bytes it read |
| RemainingLength.Pow128Table | test/unit-test/MQTTv5/core_mqttv5_serializer_utest.c:873 | proof helper: the decoder's multipliers are 128, 16384 and 2097152, and 128^4 is MQTT_REMAINING_LENGTH_INVALID, one above MQTT_MAX_REMAINING_LENGTH |
| RemainingLength.EncodedSize | test/unit-test/MQTTv5/core_mqttv5_serializer_utest.c:339-372 | the size is always between 1 and 4 |
| RemainingLength.Encoding | test/unit-test/MQTTv5/core_mqttv5_serializer_utest.c:428-442 | the do-while loop's output: each byte is the length modulo 128, with bit 7 set while the length divided by 128 is still positive, then the loop goes on with the quotient; the output is at least one byte |
| RemainingLength.EncodedSizeAgrees | test/unit-test/MQTTv5/core_mqttv5_serializer_utest.c:339-372 | the encoder writes exactly `remainingLengthEncodedSize(length)` bytes if and only if length <= 268435455 |
| RemainingLength.EncodingLengthBound | test/unit-test/MQTTv5/core_mqttv5_serializer_utest.c:428-442 | the encoder writes at most k bytes exactly when length < 128^k |
| RemainingLength.EncodingWellFormed | test/unit-test/MQTTv5/core_mqttv5_serializer_utest.c:428-442 | the output has bit 7 set on every byte but the last, clear on the last, and its 7-bit groups add up to the length |
| RemainingLength.EncodingDigitAt | test/unit-test/MQTTv5/core_mqttv5_serializer_utest.c:430-437 | byte i's low seven bits are the i-th base-128 digit of the length, least significant first; bit 7 is set iff it is not the last byte |
| RemainingLength.EncodingLastDigitNonZero | test/unit-test/MQTTv5/core_mqttv5_serializer_utest.c:428-442 | the last byte of a multi-byte output is never 0x00 |
| RemainingLength.EncoderTestVectors | test/unit-test/MQTTv5/core_mqttv5_serializer_utest.c:416-445 | 0 is written as one 0x00 byte, 127, 128 and 16384 as 1, 2 and 3 bytes, and 268435455 as FF FF FF 7F |
| RemainingLength.EncodeRemainingLength | test/unit-test/MQTTv5/core_mqttv5_serializer_utest.c:416-445 | the do-while loop writes exactly the field bytes at the destination, returns their count, and changes nothing else |
| RemainingLength.ValueBound | test/unit-test/MQTTv5/core_mqttv5_serializer_utest.c:886 | k field bytes stand for a value below 128^k |
| RemainingLength.MinimalFieldIsEncoding | test/unit-test/MQTTv5/core_mqttv5_serializer_utest.c:903-909 | a well-formed field as short as its value allows is that value's encoding |
| RemainingLength.DecodeLoop | test/unit-test/MQTTv5/core_mqttv5_serializer_utest.c:871-898 | body: the decoding do-while loop; a multiplier past 128^3 (after 4 bytes) is BadResponse, a byte wanted past the received bytes is NeedMoreBytes, a byte with bit 7 set adds its group and goes on, one with bit 7 clear adds its group and stops |
| RemainingLength.DecodeLoopBounds | test/unit-test/MQTTv5/core_mqttv5_serializer_utest.c:871-898 | a successful run of the loop consumes at least one more byte, at most 4 in all, all inside the received bytes |
| RemainingLength.Decoding | test/unit-test/MQTTv5/core_mqttv5_serializer_utest.c:860-917 | the loop followed by the `remainingLengthEncodedSize` check; on success the bytes consumed are exactly `remainingLengthEncodedSize` of the value and lie inside the buffer |
| RemainingLength.DecodeLoopOfEncoding | test/unit-test/MQTTv5/core_mqttv5_serializer_utest.c:871-898 | the decoding loop run over an encoding stops at its last byte with the encoded value added at the current multiplier |
| RemainingLength.DecodeLoopReadsField | test/unit-test/MQTTv5/core_mqttv5_serializer_utest.c:871-898 | when the decoding loop succeeds, it has read a well-formed field of at most 4 bytes and added that field's value |
| RemainingLength.DecodeLoopRefuses | test/unit-test/MQTTv5/core_mqttv5_serializer_utest.c:873-880 | proof helper: once the multiplier exceeds 128^3 the loop reports a bad response |
| RemainingLength.DecodeLoopRunsOut | test/unit-test/MQTTv5/core_mqttv5_serializer_utest.c:885 | proof helper: a byte wanted past the end of the received bytes gives NeedMoreBytes |
| RemainingLength.DecodeLoopStops | test/unit-test/MQTTv5/core_mqttv5_serializer_utest.c:885-898 | proof helper: a byte with bit 7 clear ends the loop with its group added |
| RemainingLength.DecodeLoopContinues | test/unit-test/MQTTv5/core_mqttv5_serializer_utest.c:885-898 | proof helper: a byte with bit 7 set adds its group at the current multiplier and moves on |
| RemainingLength.DecodeEncodeRoundTrip | test/unit-test/MQTTv5/core_mqttv5_serializer_utest.c:870-913 | decoding the encoder's output, whatever follows it, gives back the length and consumes `remainingLengthEncodedSize(length)` bytes, for every length up to 268435455 |
| RemainingLength.DecodedIsEncoding | test/unit-test/MQTTv5/core_mqttv5_serializer_utest.c:900-913 | whatever the decoder accepts starts with the encoder's output for the returned value, and that value is at most 268435455 |
| RemainingLength.RejectsFourContinuationBytes | test/unit-test/MQTTv5/core_mqttv5_serializer_utest.c:873-880 | four bytes with bit 7 set are a bad response |
| RemainingLength.RejectsNonMinimalField | test/unit-test/MQTTv5/core_mqttv5_serializer_utest.c:903-909 | a field of 2 to 4 bytes that ends in 0x00 is a bad response |
| RemainingLength.FieldEndIsUnique | test/unit-test/MQTTv5/core_mqttv5_serializer_utest.c:898 | the first byte with bit 7 clear ends the field, so a buffer has only one well-formed prefix |
| RemainingLength.DecoderTestVectors | test/unit-test/MQTTv5/core_mqttv5_serializer_utest.c:3661-3725 | 02 is 2, 80 01 is 128, 80 80 01 is 16384; FF FF FF FF and 80 80 80 00 are bad responses |
| RemainingLength.IncomingLengthTestVectors | test/unit-test/MQTTv5/core_mqttv5_serializer_utest.c:4006-4089 | no length bytes at all need more bytes, 0A is 10 in one byte, five FF bytes and 80 80 80 00 are bad responses |
| RemainingLength.DecodeVariableLength | test/unit-test/MQTTv5/core_mqttv5_serializer_utest.c:860-917 | the C loop succeeds exactly when `Decoding` does and then returns its value; otherwise it returns `Decoding`'s error status and leaves the output untouched |
| RemainingLength.GroupStep | test/unit-test/MQTTv5/core_mqttv5_serializer_utest.c:886-887 | proof helper: adding one group at 128^k and the later groups at 128^(k+1) is adding the whole value at 128^k |
| RemainingLength.GroupBound | test/unit-test/MQTTv5/core_mqttv5_serializer_utest.c:886-887 | proof helper: the accumulated value stays below the next multiplier |
| Utf8String.EncodedString | test/unit-test/MQTTv5/core_mqttv5_serializer_utest.c:470-479 | the layout is two bytes longer than the string and its prefix reads back as the string's length |
| Utf8String.DecodeString | test/unit-test/MQTTv5/core_mqttv5_serializer_utest.c:470-479 | a string read back fits in the buffer and takes its length plus 2 bytes |
| Utf8String.StringRoundTrip | test/unit-test/MQTTv5/core_mqttv5_serializer_utest.c:455-485 | reading back an encoded string, whatever follows it, gives the string and length + 2 |
| Utf8String.DecodedIsEncodedString | test/unit-test/MQTTv5/core_mqttv5_serializer_utest.c:455-485 | whatever the reader accepts is exactly an encoded string at the front of the buffer |
| Utf8String.EncodeString | test/unit-test/MQTTv5/core_mqttv5_serializer_utest.c:455-485 | writes the high length byte, the low length byte and exactly `sourceLength` bytes of the source, returns `sourceLength + 2`, and changes nothing else |
| PropertyWriters.Uint32Property | test/unit-test/MQTTv5/core_mqttv5_serializer_utest.c:630-643 | a Four Byte Integer property is 5 bytes, the identifier first, and UINT32_DECODE of the rest is the value |
| PropertyWriters.Uint16Property | test/unit-test/MQTTv5/core_mqttv5_serializer_utest.c:646-657 | a Two Byte Integer property is 3 bytes, the identifier first, and UINT16_DECODE of the rest is the value |
| PropertyWriters.Uint8Property | test/unit-test/MQTTv5/core_mqttv5_serializer_utest.c:659-669 | body: the identifier, then the value byte |
| PropertyWriters.Utf8Property | test/unit-test/MQTTv5/core_mqttv5_serializer_utest.c:670-680 | a string property is the string's length + 3 bytes, and the string reads back from after the identifier |
| PropertyWriters.UserPropertyPair | test/unit-test/MQTTv5/core_mqttv5_serializer_utest.c:682-693 | a User Property is 0x26 and then the key and the value, each reading back from its own offset; it is key + value + 5 bytes long |
| PropertyWriters.SerializeUint32 | test/unit-test/MQTTv5/core_mqttv5_serializer_utest.c:630-643 | writes the identifier and 300 as a Four Byte Integer, advances by 5, changes nothing else |
| PropertyWriters.SerializeUint16 | test/unit-test/MQTTv5/core_mqttv5_serializer_utest.c:646-657 | writes the identifier and 32 as a Two Byte Integer, advances by 3, changes nothing else |
| PropertyWriters.SerializeUint8 | test/unit-test/MQTTv5/core_mqttv5_serializer_utest.c:659-669 | writes the identifier and the byte 1, advances by 2, changes nothing else |
| PropertyWriters.SerializeUtf8 | test/unit-test/MQTTv5/core_mqttv5_serializer_utest.c:670-680 | writes the identifier and "test" as an encoded string, advances by 7, changes nothing else |
| PropertyWriters.SerializeUtf8Pair | test/unit-test/MQTTv5/core_mqttv5_serializer_utest.c:682-693 | writes 0x26 and "test" twice as encoded strings, advances by 13 = 1 + 2 * (4 + 2), changes nothing else |
| UserProperties.Valid | test/unit-test/MQTTv5/core_mqttv5_serializer_utest.c:711 | body: the negation of the rejection test, so both lengths are non-zero and both pointers non-NULL |
| UserProperties.PropertySize | test/unit-test/MQTTv5/core_mqttv5_serializer_utest.c:718-721 | body: key length + 3 + value length + 2, the four additions to `*pSize` |
| UserProperties.PropertiesSize | test/unit-test/MQTTv5/core_mqttv5_serializer_utest.c:718-721 | each property adds at least 5 bytes to the total |
| UserProperties.FirstInvalid | test/unit-test/MQTTv5/core_mqttv5_serializer_utest.c:710-714 | every property before the index has non-zero lengths and non-NULL pointers, and the one at the index (if any) does not |
| UserProperties.FirstInvalidAt | test/unit-test/MQTTv5/core_mqttv5_serializer_utest.c:708-714 | the first rejected property is determined uniquely by validity |
| UserProperties.GetUserPropertySize | test/unit-test/MQTTv5/core_mqttv5_serializer_utest.c:694-727 | too many properties: BadParameter, nothing added; otherwise Success exactly when all `number` properties are valid, and the sizes of all properties before the first rejected one are added |
| UserProperties.PropertiesSizeIsWireSize | test/unit-test/MQTTv5/core_mqttv5_serializer_utest.c:718-721 | the size added for valid properties is the byte count of their User Property encodings |
| UserProperties.PropertiesSizeAppend | test/unit-test/MQTTv5/core_mqttv5_serializer_utest.c:708-721 | the total for a list is the total for its first part plus the total for the rest |
| UserProperties.UniformPropertiesSize | test/unit-test/MQTTv5/core_mqttv5_serializer_utest.c:718-721 | n copies of one property add n times its size |
| BufferGuard.PaddingIntact | test/unit-test/MQTTv5/core_mqttv5_serializer_utest.c:573-579 | body: the first 4 and the last 4 bytes all equal 0xA5, the two assertions of `checkBufferOverflow` |
| BufferGuard.Padded | test/unit-test/MQTTv5/core_mqttv5_serializer_utest.c:548-561 | the padded contents have the buffer's length |
| BufferGuard.PaddedIsIntact | test/unit-test/MQTTv5/core_mqttv5_serializer_utest.c:548-580 | a freshly padded buffer passes the overflow check and is zero between its padded ends |
| BufferGuard.InteriorWritesKeepPadding | test/unit-test/MQTTv5/core_mqttv5_serializer_utest.c:569-580 | writes confined to the middle of a buffer that passed the check leave it passing |
| BufferGuard.PadAndResetBuffer | test/unit-test/MQTTv5/core_mqttv5_serializer_utest.c:548-561 | the first and last 4 bytes become 0xA5, the bytes between become 0, bytes past `bufferLength` are untouched |
| BufferGuard.CheckBufferOverflow | test/unit-test/MQTTv5/core_mqttv5_serializer_utest.c:569-580 | true exactly when the first 4 and the last 4 of the `bufferLength` bytes all equal 0xA5 |
| BufferGuard.GuardedEncodeRemainingLength | test/unit-test/MQTTv5/core_mqttv5_serializer_utest.c:3602-3607 | the pad / serialize at `&buffer[ BUFFER_PADDING_LENGTH ]` / check sequence of the serializer tests, with a Remaining Length as the write: the check passes, both padded ends still hold 0xA5, the field sits right after the leading padding, and every byte from its end to the trailing padding is still 0 |

## Left out

- test/unit-test/MQTTv5/core_mqttv5_utest.c is not part of this model. It is mock-expectation scripting around library code whose bodies are not available.
- The library functions the tests call, such as `MQTT_GetIncomingPacketTypeAndLength` and `MQTTV5_DeserializeConnack`, are left out because their bodies are not available. Their tests are used only as decoder test vectors.
- The mock transport receivers (`mockReceive` and the rest) are left out because they are I/O stand-ins.
- `initializeDeserialize` and `setupProperties` are left out; they are fixture set-up, not wire-format logic.
- Unity assertions and `LogDebug` are left out. The `TEST_ASSERT_NOT_NULL` checks on the destination in `encodeString` and `encodeRemainingLength` become the fact that the destination is an array. The `TEST_ASSERT_NOT_NULL( pSourceBuffer )` check in `encodeString` (line 465) becomes the fact that the source is a `seq<byte>`.
- RemainingLength.DecodeVariableLength: the C text reads `pBuffer[bytesDecoded]` with no bound. The model reads only inside the buffer and reports NeedMoreBytes past its end, which is the status the library tests expect when the field is incomplete.
- RemainingLength.DecodeVariableLength: the loop breaks when `remainingLength == MQTT_REMAINING_LENGTH_INVALID` or when the status is not success, and both tests are kept. After a byte has been added, the value test never holds, because four groups add up to at most 268435455. It holds only on the refusal path (line 875), which sets the value to the invalid marker and also sets the status to MQTTBadResponse, so the status test breaks there too.
- RemainingLength.EncodedSizeAgrees: `size_t` wrap-around is not modelled; lengths are unbounded naturals. The deliberately oversized calls `encodeRemainingLength(…, 20971556356235)` are covered only by the statement that the size agreement fails above 268435455.
- UserProperties.GetUserPropertySize: `MAX_USER_PROPERTY` is not defined in the available files, so it is a parameter. `*pSize` is passed in and returned, and its `size_t` wrap-around is not modelled.
- The definition of `MQTTUserProperty_t` is not available. The lengths are modelled as `uint16_t`, as UTF-8 string lengths are. A NULL pointer is `None`.
- PropertyWriters.SerializeUint32: the writers put the tests' fixed constants (300, 32, 1, "test"); the layout functions take any value.
- BufferGuard.CheckBufferOverflow: a failing Unity assertion that aborts the test is modelled as the result `false`.
- BufferGuard.PadAndResetBuffer requires at least 8 bytes. Below that, the two padded ends overlap and the `memset` length wraps around.
