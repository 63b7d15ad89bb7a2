/**
 * The Remaining Length field: a Variable Byte Integer (section 1.5.5 of
 * MQTT 5.0, section 2.2.3 of MQTT 3.1.1). Each byte carries seven bits of
 * the value, least significant group first; bit 7 says that another byte
 * follows. At most four bytes are allowed, so the largest value is
 * 268,435,455.
 */
module RemainingLength {
  import opened MqttTypes
  import opened Bytes

  /** MQTT_MAX_REMAINING_LENGTH. */
  const MaxRemainingLength: nat := 268435455

  /** MQTT_REMAINING_LENGTH_INVALID: the marker the decoder stores on failure. */
  const RemainingLengthInvalid: nat := 268435456

  /** 128 raised to `k`: the weight of the `k`-th seven-bit group. */
  function Pow128(k: nat): (r: nat)
    ensures r >= 1
  {
    if k == 0 then 1 else 128 * Pow128(k - 1)
  }

  /** The four multipliers of the decoding loop, and the first one it refuses. */
  lemma Pow128Table()
    ensures Pow128(1) == 128 && Pow128(2) == 16384 && Pow128(3) == 2097152
    ensures Pow128(4) == RemainingLengthInvalid == MaxRemainingLength + 1
  {
  }

  /**
   * remainingLengthEncodedSize: the number of bytes the field takes, chosen by
   * the thresholds 128, 16,384 and 2,097,152. Anything larger is given 4.
   */
  function EncodedSize(length: nat): (r: nat)
    ensures 1 <= r <= 4
  {
    if length < 128 then 1
    else if length < 16384 then 2
    else if length < 2097152 then 3
    else 4
  }

  /**
   * The bytes encodeRemainingLength writes for `length`: one step of its
   * do-while loop per byte. The byte is `length % 128`, with bit 7 set
   * when `length / 128` is still positive.
   */
  function Encoding(length: nat): (r: seq<byte>)
    ensures |r| >= 1
  {
    if length < 128 then [length]
    else [length % 128 + 128] + Encoding(length / 128)
  }

  /** The `i`-th base-128 digit of `n`, least significant first. */
  function Digit(n: nat, i: nat): (d: nat)
    ensures d < 128
  {
    if i == 0 then n % 128 else Digit(n / 128, i - 1)
  }

  /** A well-formed field: bit 7 set on every byte but the last, clear on the last. */
  ghost predicate WellFormed(s: seq<byte>)
  {
    && |s| >= 1
    && (forall i :: 0 <= i < |s| - 1 ==> s[i] >= 128)
    && s[|s| - 1] < 128
  }

  /** The value a sequence of field bytes stands for: the low seven bits, little-endian base 128. */
  function Value(s: seq<byte>): nat
  {
    if s == [] then 0 else s[0] % 128 + 128 * Value(s[1..])
  }

  // ---------------------------------------------------------------------
  // Properties of the encoding

  /** Putting a byte with bit 7 set in front of a well-formed field. */
  lemma ConsField(b: byte, tail: seq<byte>)
    requires b >= 128 && WellFormed(tail)
    ensures WellFormed([b] + tail)
    ensures Value([b] + tail) == b % 128 + 128 * Value(tail)
  {
    var s := [b] + tail;
    assert s[1..] == tail;
    forall i | 0 <= i < |s| - 1
      ensures s[i] >= 128
    {
      if i > 0 {
        assert s[i] == tail[i - 1];
      }
    }
  }

  /** Taking the first byte off a well-formed field of two or more bytes. */
  lemma FieldTail(s: seq<byte>)
    requires WellFormed(s) && |s| >= 2
    ensures s[0] >= 128 && WellFormed(s[1..]) && s == [s[0]] + s[1..]
    ensures Value(s) == s[0] % 128 + 128 * Value(s[1..])
  {
    var t := s[1..];
    forall i | 0 <= i < |t| - 1
      ensures t[i] >= 128
    {
      assert t[i] == s[i + 1];
    }
  }

  /** The encoding is a well-formed field whose value is `length`. */
  lemma {:induction false} EncodingWellFormed(length: nat)
    ensures WellFormed(Encoding(length))
    ensures Value(Encoding(length)) == length
  {
    if length >= 128 {
      EncodingWellFormed(length / 128);
      ConsField(length % 128 + 128, Encoding(length / 128));
    }
  }

  /**
   * Byte `i` of the encoding: its low seven bits are the `i`-th base-128
   * digit of `length`, and bit 7 is set exactly on the bytes before the last.
   */
  lemma {:induction false} EncodingDigitAt(length: nat, i: nat)
    requires i < |Encoding(length)|
    ensures Encoding(length)[i] % 128 == Digit(length, i)
    ensures Encoding(length)[i] >= 128 <==> i < |Encoding(length)| - 1
  {
    if i > 0 {
      EncodingDigitAt(length / 128, i - 1);
    }
  }

  /** The encoding needs at most `k` bytes exactly when `length < 128^k`. */
  lemma {:induction false} EncodingLengthBound(length: nat, k: nat)
    requires k >= 1
    ensures |Encoding(length)| <= k <==> length < Pow128(k)
  {
    if length >= 128 {
      if k == 1 {
        assert |Encoding(length)| >= 2;
      } else {
        EncodingLengthBound(length / 128, k - 1);
      }
    }
  }

  /**
   * encodeRemainingLength writes exactly remainingLengthEncodedSize bytes,
   * and it does so precisely up to MQTT_MAX_REMAINING_LENGTH: above that the
   * loop writes a fifth byte while the size function still answers 4.
   */
  lemma EncodedSizeAgrees(length: nat)
    ensures |Encoding(length)| == EncodedSize(length) <==> length <= MaxRemainingLength
  {
    EncodingLengthBound(length, 1);
    EncodingLengthBound(length, 2);
    EncodingLengthBound(length, 3);
    EncodingLengthBound(length, 4);
  }

  /** A field of `k` bytes stands for a value below 128^k. */
  lemma {:induction false} ValueBound(s: seq<byte>)
    ensures Value(s) < Pow128(|s|)
  {
    if s != [] {
      ValueBound(s[1..]);
    }
  }

  /**
   * A well-formed field that is as short as its value allows is that value's
   * encoding: the encoding is the only minimal form.
   */
  lemma {:induction false} MinimalFieldIsEncoding(s: seq<byte>)
    requires WellFormed(s)
    requires |Encoding(Value(s))| == |s|
    ensures Encoding(Value(s)) == s
  {
    if |s| > 1 {
      var t := s[1..];
      FieldTail(s);
      var lo, hi := s[0] as int % 128, Value(t);
      assert hi > 0;
      EncodingOfGroups(lo, hi);
      MinimalFieldIsEncoding(t);
      assert s[0] == lo + 128;
    }
  }

  /** A low group `lo` followed by a positive rest `hi` is encoded as `lo` with bit 7 set, then `hi`. */
  lemma EncodingOfGroups(lo: nat, hi: nat)
    requires lo < 128 && hi > 0
    ensures Encoding(lo + 128 * hi) == [lo + 128] + Encoding(hi)
  {
    var n := lo + 128 * hi;
    assert n / 128 == hi && n % 128 == lo;
  }

  // ---------------------------------------------------------------------
  // The decoder

  /** What a successful decode yields: the value and the bytes it took. */
  datatype Decoded = Decoded(length: nat, bytesDecoded: nat)

  /**
   * The decoding loop from byte `decoded` on, with `acc` accumulated so far.
   * The multiplier is 128^decoded; once it exceeds 128^3 (a fourth byte still
   * had bit 7 set) the packet is a bad response. Running past the end of the
   * received bytes means more bytes are needed.
   */
  function DecodeLoop(buf: seq<byte>, decoded: nat, acc: nat): Result<Decoded>
    requires decoded <= 4
    decreases 4 - decoded
  {
    if decoded == 4 then Err(BadResponse)
    else if decoded >= |buf| then Err(NeedMoreBytes)
    else
      var b := buf[decoded];
      var acc' := acc + (b % 128) * Pow128(decoded);
      if b >= 128 then DecodeLoop(buf, decoded + 1, acc')
      else Ok(Decoded(acc', decoded + 1))
  }

  /** A successful run of the loop consumed at least one more byte, at most four in all, all of them received. */
  lemma {:induction false} DecodeLoopBounds(buf: seq<byte>, decoded: nat, acc: nat)
    requires decoded <= 4
    ensures DecodeLoop(buf, decoded, acc).Ok? ==>
      var n := DecodeLoop(buf, decoded, acc).value.bytesDecoded;
      decoded < n <= 4 && n <= |buf|
    decreases 4 - decoded
  {
    if decoded < 4 && decoded < |buf| && buf[decoded] >= 128 {
      DecodeLoopBounds(buf, decoded + 1, acc + (buf[decoded] as int % 128) * Pow128(decoded));
    }
  }

  /**
   * decodeVariableLength: run the loop, then insist that the number of bytes
   * consumed is remainingLengthEncodedSize of the value (no padded forms).
   */
  function Decoding(buf: seq<byte>): (r: Result<Decoded>)
    ensures r.Ok? ==> r.value.bytesDecoded == EncodedSize(r.value.length) <= |buf|
  {
    DecodeLoopBounds(buf, 0, 0);
    match DecodeLoop(buf, 0, 0)
    case Err(e) => Err(e)
    case Ok(d) =>
      if d.bytesDecoded != EncodedSize(d.length) then Err(BadResponse) else Ok(d)
  }

  /** The loop, started on the bytes of an encoding, stops at its last byte with the encoded value. */
  lemma {:induction false} DecodeLoopOfEncoding(buf: seq<byte>, decoded: nat, acc: nat, length: nat)
    requires decoded + |Encoding(length)| <= 4
    requires decoded + |Encoding(length)| <= |buf|
    requires buf[decoded..decoded + |Encoding(length)|] == Encoding(length)
    ensures DecodeLoop(buf, decoded, acc)
         == Ok(Decoded(acc + Pow128(decoded) * length, decoded + |Encoding(length)|))
    decreases length
  {
    if length < 128 {
      SliceHead(buf, decoded, Encoding(length));
      DecodeLoopStops(buf, decoded, acc);
    } else {
      DecodeLoopStepOfEncoding(buf, decoded, acc, length);
      DecodeLoopOfEncoding(buf, decoded + 1, acc + (length % 128) * Pow128(decoded), length / 128);
    }
  }

  /**
   * One step of the loop over a multi-byte encoding: it adds the lowest group
   * and leaves the encoding of the remaining groups at the next position.
   */
  lemma DecodeLoopStepOfEncoding(buf: seq<byte>, decoded: nat, acc: nat, length: nat)
    requires length >= 128
    requires decoded + |Encoding(length)| <= 4
    requires decoded + |Encoding(length)| <= |buf|
    requires buf[decoded..decoded + |Encoding(length)|] == Encoding(length)
    ensures var hi, acc' := length / 128, acc + (length % 128) * Pow128(decoded);
      && |Encoding(length)| == 1 + |Encoding(hi)|
      && buf[decoded + 1..decoded + 1 + |Encoding(hi)|] == Encoding(hi)
      && DecodeLoop(buf, decoded, acc) == DecodeLoop(buf, decoded + 1, acc')
      && acc' + Pow128(decoded + 1) * hi == acc + Pow128(decoded) * length
  {
    var e := Encoding(length);
    var lo, hi := length % 128, length / 128;
    assert e == [lo + 128] + Encoding(hi);
    SliceHead(buf, decoded, e);
    assert e[1..] == Encoding(hi);
    assert buf[decoded] as int % 128 == lo && buf[decoded] >= 128;
    DecodeLoopContinues(buf, decoded, acc);
    GroupStep(decoded, acc, lo, hi);
  }

  /** If `e` sits at `buf[at..]`, its first byte is `buf[at]` and the rest sits at `buf[at + 1..]`. */
  lemma SliceHead(buf: seq<byte>, at: nat, e: seq<byte>)
    requires |e| >= 1 && at + |e| <= |buf| && buf[at..at + |e|] == e
    ensures buf[at] == e[0] && buf[at + 1..at + 1 + |e[1..]|] == e[1..]
  {
    assert buf[at..at + |e|][0] == buf[at];
  }

  /** A fourth byte with bit 7 set leaves a multiplier above 128^3: a bad response. */
  lemma DecodeLoopRefuses(buf: seq<byte>, acc: nat)
    ensures DecodeLoop(buf, 4, acc) == Err(BadResponse)
  {
  }

  /** The loop wants a byte beyond the end of what was received. */
  lemma DecodeLoopRunsOut(buf: seq<byte>, decoded: nat, acc: nat)
    requires decoded < 4 && |buf| <= decoded
    ensures DecodeLoop(buf, decoded, acc) == Err(NeedMoreBytes)
  {
  }

  /** A byte with bit 7 clear ends the loop with its group added. */
  lemma DecodeLoopStops(buf: seq<byte>, decoded: nat, acc: nat)
    requires decoded < 4 && decoded < |buf| && buf[decoded] < 128
    ensures DecodeLoop(buf, decoded, acc)
         == Ok(Decoded(acc + Pow128(decoded) * buf[decoded], decoded + 1))
  {
  }

  /** A byte with bit 7 set adds its group and hands on to the next byte. */
  lemma DecodeLoopContinues(buf: seq<byte>, decoded: nat, acc: nat)
    requires decoded < 4 && decoded < |buf| && buf[decoded] >= 128
    ensures DecodeLoop(buf, decoded, acc)
         == DecodeLoop(buf, decoded + 1, acc + (buf[decoded] as int % 128) * Pow128(decoded))
  {
  }

  /** Adding group `lo` at weight 128^k and the value `hi` of the later groups at weight 128^(k+1). */
  lemma GroupStep(k: nat, acc: nat, lo: nat, hi: nat)
    ensures acc + lo * Pow128(k) + Pow128(k + 1) * hi == acc + Pow128(k) * (lo + 128 * hi)
  {
    var p := Pow128(k);
    assert Pow128(k + 1) == 128 * p;
    calc {
      lo * p + (128 * p) * hi;
      lo * p + p * (128 * hi);
      p * (lo + 128 * hi);
    }
  }

  /**
   * Round trip: decoding what encodeRemainingLength writes gives back the
   * length, consuming exactly remainingLengthEncodedSize bytes, whatever follows.
   */
  lemma DecodeEncodeRoundTrip(length: nat, rest: seq<byte>)
    requires length <= MaxRemainingLength
    ensures Decoding(Encoding(length) + rest) == Ok(Decoded(length, EncodedSize(length)))
  {
    EncodedSizeAgrees(length);
    DecodeLoopOfPrefix(length, rest);
    DecodingAccepts(Encoding(length) + rest, Decoded(length, |Encoding(length)|));
  }

  /** The loop, run over an encoding at the front of the buffer, returns the encoded value and its size. */
  lemma DecodeLoopOfPrefix(length: nat, rest: seq<byte>)
    requires |Encoding(length)| <= 4
    ensures DecodeLoop(Encoding(length) + rest, 0, 0) == Ok(Decoded(length, |Encoding(length)|))
  {
    var e := Encoding(length);
    var buf := e + rest;
    assert buf[0..|e|] == e;
    DecodeLoopOfEncoding(buf, 0, 0, length);
  }

  /** A loop result whose byte count is the encoded size of its value is what the decoder returns. */
  lemma DecodingAccepts(buf: seq<byte>, d: Decoded)
    requires DecodeLoop(buf, 0, 0) == Ok(d)
    requires d.bytesDecoded == EncodedSize(d.length)
    ensures Decoding(buf) == Ok(d)
  {
  }

  /**
   * The loop, run from byte `decoded` with `acc` so far, ended with `d`: it
   * read a well-formed field and added its value at weight 128^decoded.
   */
  ghost predicate ReadField(buf: seq<byte>, decoded: nat, acc: nat, d: Decoded)
  {
    && decoded < d.bytesDecoded <= |buf|
    && d.bytesDecoded <= 4
    && WellFormed(buf[decoded..d.bytesDecoded])
    && d.length == acc + Pow128(decoded) * Value(buf[decoded..d.bytesDecoded])
  }

  /** A successful run of the loop read a well-formed field and added its value. */
  lemma {:induction false} DecodeLoopReadsField(buf: seq<byte>, decoded: nat, acc: nat)
    requires decoded <= 4
    requires DecodeLoop(buf, decoded, acc).Ok?
    ensures ReadField(buf, decoded, acc, DecodeLoop(buf, decoded, acc).value)
    decreases 4 - decoded
  {
    assert decoded < 4 && decoded < |buf|;
    if buf[decoded] >= 128 {
      var acc' := acc + (buf[decoded] as int % 128) * Pow128(decoded);
      DecodeLoopContinues(buf, decoded, acc);
      DecodeLoopReadsField(buf, decoded + 1, acc');
      ReadFieldCons(buf, decoded, acc, DecodeLoop(buf, decoded, acc).value);
    } else {
      ReadFieldLast(buf, decoded, acc);
    }
  }

  /** A byte with bit 7 clear is a one-byte field of its own. */
  lemma ReadFieldLast(buf: seq<byte>, decoded: nat, acc: nat)
    requires decoded < 4 && decoded < |buf| && buf[decoded] < 128
    ensures DecodeLoop(buf, decoded, acc).Ok?
    ensures ReadField(buf, decoded, acc, DecodeLoop(buf, decoded, acc).value)
  {
    DecodeLoopStops(buf, decoded, acc);
    var b := buf[decoded];
    var field := buf[decoded..decoded + 1];
    assert field == [b] && field[1..] == [];
    assert Value(field) == b;
  }

  /** A byte with bit 7 set in front of a field the rest of the loop read. */
  lemma ReadFieldCons(buf: seq<byte>, decoded: nat, acc: nat, d: Decoded)
    requires decoded < 4 && decoded < |buf| && buf[decoded] >= 128
    requires ReadField(buf, decoded + 1, acc + (buf[decoded] as int % 128) * Pow128(decoded), d)
    ensures ReadField(buf, decoded, acc, d)
  {
    var b := buf[decoded];
    var lo := b as int % 128;
    var tail := buf[decoded + 1..d.bytesDecoded];
    assert buf[decoded..d.bytesDecoded] == [b] + tail by {
      SliceSplit(buf, decoded, d.bytesDecoded);
    }
    ConsField(b, tail);
    GroupStep(decoded, acc, lo, Value(tail));
  }

  /** A slice is its first element followed by the rest. */
  lemma SliceSplit(buf: seq<byte>, from: nat, to: nat)
    requires from < to <= |buf|
    ensures buf[from..to] == [buf[from]] + buf[from + 1..to]
  {
  }

  /**
   * The decoder accepts exactly the encoder's outputs: whatever it accepts
   * starts with the encoding of the value it returns, and that value is in range.
   */
  lemma DecodedIsEncoding(buf: seq<byte>)
    requires Decoding(buf).Ok?
    ensures var d := Decoding(buf).value;
      && d.length <= MaxRemainingLength
      && d.bytesDecoded == EncodedSize(d.length) <= |buf|
      && buf[..d.bytesDecoded] == Encoding(d.length)
  {
    DecodeLoopReadsField(buf, 0, 0);
    var d := Decoding(buf).value;
    var field := buf[0..d.bytesDecoded];
    ValueBound(field);
    Pow128Table();
    EncodedSizeAgrees(d.length);
    MinimalFieldIsEncoding(field);
    assert buf[..d.bytesDecoded] == field;
  }

  /** Four bytes that all have bit 7 set make the multiplier exceed 128^3: a bad response. */
  lemma RejectsFourContinuationBytes(buf: seq<byte>)
    requires |buf| >= 4
    requires forall i :: 0 <= i < 4 ==> buf[i] >= 128
    ensures Decoding(buf) == Err(BadResponse)
  {
    var a1 := buf[0] % 128;
    var a2 := a1 + (buf[1] as int % 128) * 128;
    var a3 := a2 + (buf[2] as int % 128) * 16384;
    var a4 := a3 + (buf[3] as int % 128) * 2097152;
    assert DecodeLoop(buf, 3, a3) == DecodeLoop(buf, 4, a4);
    assert DecodeLoop(buf, 0, 0) == DecodeLoop(buf, 3, a3);
  }

  /**
   * A field that encodes its value in more bytes than needed (a trailing
   * group of zero bits, as in 0x80 0x80 0x80 0x00) is a bad response.
   */
  lemma RejectsNonMinimalField(buf: seq<byte>, k: nat)
    requires 2 <= k <= 4 && k <= |buf|
    requires WellFormed(buf[..k])
    requires buf[k - 1] == 0
    ensures Decoding(buf) == Err(BadResponse)
  {
    if Decoding(buf).Ok? {
      DecodedIsEncoding(buf);
      DecodeLoopReadsField(buf, 0, 0);
      var d := Decoding(buf).value;
      FieldEndIsUnique(buf, k, d.bytesDecoded);
      var e := Encoding(d.length);
      assert e == buf[..k];
      EncodingLastDigitNonZero(d.length);
    }
  }

  /** Two well-formed prefixes of one buffer have the same length: bit 7 marks the end. */
  lemma FieldEndIsUnique(buf: seq<byte>, k: nat, m: nat)
    requires 1 <= k <= |buf| && 1 <= m <= |buf|
    requires WellFormed(buf[..k]) && WellFormed(buf[0..m])
    ensures k == m
  {
  }

  /** The last byte of a multi-byte encoding is never zero. */
  lemma {:induction false} EncodingLastDigitNonZero(length: nat)
    requires |Encoding(length)| >= 2
    ensures Encoding(length)[|Encoding(length)| - 1] != 0
  {
    var tail := Encoding(length / 128);
    if |tail| >= 2 {
      EncodingLastDigitNonZero(length / 128);
    }
  }

  /** The encoder on the boundary values: 0 still takes one byte, and the largest value takes four. */
  lemma EncoderTestVectors()
    ensures Encoding(0) == [0x00]
    ensures Encoding(127) == [0x7F]
    ensures Encoding(128) == [0x80, 0x01]
    ensures Encoding(16384) == [0x80, 0x80, 0x01]
    ensures Encoding(MaxRemainingLength) == [0xFF, 0xFF, 0xFF, 0x7F]
  {
  }

  /** The decoder test vectors: 0x80 0x01 is 128, 0x80 0x80 0x01 is 16,384, two rejected forms. */
  lemma DecoderTestVectors()
    ensures Decoding([0x02]) == Ok(Decoded(2, 1))
    ensures Decoding([0x80, 0x01]) == Ok(Decoded(128, 2))
    ensures Decoding([0x80, 0x80, 0x01]) == Ok(Decoded(16384, 3))
    ensures Decoding([0xFF, 0xFF, 0xFF, 0xFF]) == Err(BadResponse)
    ensures Decoding([0x80, 0x80, 0x80, 0x00]) == Err(BadResponse)
  {
    DecodeEncodeRoundTrip(2, []);
    assert Encoding(128) == [0x80, 0x01];
    DecodeEncodeRoundTrip(128, []);
    assert Encoding(16384) == [0x80, 0x80, 0x01];
    DecodeEncodeRoundTrip(16384, []);
    RejectsFourContinuationBytes([0xFF, 0xFF, 0xFF, 0xFF]);
    var s: seq<byte> := [0x80, 0x80, 0x80, 0x00];
    assert s[..4] == s;
    RejectsNonMinimalField(s, 4);
  }

  /**
   * The incoming-packet length vectors: nothing after the type byte needs more
   * bytes, 0x0A is 10 in one byte, five 0xFF bytes and 0x80 0x80 0x80 0x00 are
   * bad responses.
   */
  lemma IncomingLengthTestVectors()
    ensures Decoding([]) == Err(NeedMoreBytes)
    ensures Decoding([10]) == Ok(Decoded(10, 1))
    ensures Decoding([0xFF, 0xFF, 0xFF, 0xFF, 0xFF]) == Err(BadResponse)
    ensures Decoding([0x80, 0x80, 0x80, 0x00, 0x00]) == Err(BadResponse)
  {
    DecodeEncodeRoundTrip(10, []);
    RejectsFourContinuationBytes([0xFF, 0xFF, 0xFF, 0xFF, 0xFF]);
    var s: seq<byte> := [0x80, 0x80, 0x80, 0x00, 0x00];
    assert s[..4] == [0x80, 0x80, 0x80, 0x00];
    RejectsNonMinimalField(s, 4);
  }

  // ---------------------------------------------------------------------
  // The imperative helpers

  /**
   * One step of the encoder's loop: when the bytes still to write are the
   * encoding of `r`, the next one is `r % 128` with bit 7 set if `r / 128` is
   * positive, and after it come the bytes of `r / 128`, or nothing.
   */
  lemma EncodingSuffixStep(e: seq<byte>, i: nat, r: nat)
    requires i < |e| && e[i..] == Encoding(r)
    ensures e[i] == (if r / 128 > 0 then r % 128 + 128 else r % 128)
    ensures r / 128 > 0 ==> i + 1 < |e| && e[i + 1..] == Encoding(r / 128)
    ensures r / 128 == 0 ==> i + 1 == |e|
  {
    assert e[i] == e[i..][0];
    assert e[i + 1..] == e[i..][1..];
  }

  /**
   * encodeRemainingLength: write the field for `length` at `dest[start..]`
   * and return how many bytes were written.
   */
  method EncodeRemainingLength(dest: array<byte>, start: nat, length: nat) returns (written: nat)
    requires start + |Encoding(length)| <= dest.Length
    modifies dest
    ensures written == |Encoding(length)|
    ensures dest[start..start + written] == Encoding(length)
    ensures forall k :: 0 <= k < dest.Length && !(start <= k < start + written) ==> dest[k] == old(dest[k])
  {
    ghost var e := Encoding(length);
    var remainingLength := length;
    var lengthEnd := start;
    var more := true;
    // A do-while loop: the body runs once before the test on the remaining value.
    while more
      invariant start <= lengthEnd <= start + |e|
      invariant more ==> lengthEnd < start + |e| && e[lengthEnd - start..] == Encoding(remainingLength)
      invariant !more ==> lengthEnd == start + |e|
      invariant forall k :: start <= k < lengthEnd ==> dest[k] == e[k - start]
      invariant forall k :: 0 <= k < dest.Length && !(start <= k < lengthEnd) ==> dest[k] == old(dest[k])
      decreases if more then remainingLength + 1 else 0
    {
      EncodingSuffixStep(e, lengthEnd - start, remainingLength);
      var lengthByte := remainingLength % 128;
      remainingLength := remainingLength / 128;
      if remainingLength > 0 {
        lengthByte := lengthByte + 128;  // set bit 7: more bytes follow
      }
      dest[lengthEnd] := lengthByte;
      lengthEnd := lengthEnd + 1;
      more := remainingLength > 0;
    }
    assert dest[start..lengthEnd] == e;
    written := lengthEnd - start;
  }

  /**
   * decodeVariableLength, as its loop is written: `length` is left as it
   * was unless the status is Success. The byte at `bytesDecoded` is read only
   * while it lies inside `buf`; past the end the status is NeedMoreBytes.
   */
  method DecodeVariableLength(buf: array<byte>, lengthIn: nat) returns (status: Status, length: nat)
    ensures Decoding(buf[..]).Ok? <==> status == Success
    ensures Decoding(buf[..]).Ok? ==> length == Decoding(buf[..]).value.length
    ensures Decoding(buf[..]).Err? ==> status == Decoding(buf[..]).status && length == lengthIn
  {
    ghost var B := buf[..];
    Pow128Table();
    var remainingLength: nat := 0;
    var multiplier: nat := 1;
    var bytesDecoded: nat := 0;
    var encodedByte: byte := 0;
    status := Success;
    length := lengthIn;
    while true
      invariant bytesDecoded <= 4 && multiplier == Pow128(bytesDecoded)
      invariant status == Success && remainingLength < multiplier
      invariant DecodeLoop(B, 0, 0) == DecodeLoop(B, bytesDecoded, remainingLength)
      decreases 4 - bytesDecoded
    {
      if multiplier > 2097152 {  // 128 ^ 3
        assert bytesDecoded == 4;
        DecodeLoopRefuses(B, remainingLength);
        remainingLength := RemainingLengthInvalid;
        status := BadResponse;
      } else if bytesDecoded >= buf.Length {
        DecodeLoopRunsOut(B, bytesDecoded, remainingLength);
        status := NeedMoreBytes;
        break;
      } else {
        encodedByte := buf[bytesDecoded];
        if encodedByte >= 128 {
          DecodeLoopContinues(B, bytesDecoded, remainingLength);
        } else {
          DecodeLoopStops(B, bytesDecoded, remainingLength);
        }
        GroupBound(remainingLength, encodedByte as int % 128, multiplier);
        remainingLength := remainingLength + (encodedByte as int % 128) * multiplier;
        multiplier := multiplier * 128;
        bytesDecoded := bytesDecoded + 1;
        assert remainingLength < multiplier <= RemainingLengthInvalid;
      }
      if remainingLength == RemainingLengthInvalid || status != Success {
        assert status == BadResponse && DecodeLoop(B, 0, 0) == Err(BadResponse);
        break;
      }
      if encodedByte < 128 {
        break;
      }
    }
    assert status == Success ==> DecodeLoop(B, 0, 0) == Ok(Decoded(remainingLength, bytesDecoded));
    assert status != Success ==> DecodeLoop(B, 0, 0) == Err(status);
    if status == Success {
      var expectedSize := EncodedSize(remainingLength);
      if bytesDecoded != expectedSize {
        status := BadResponse;
      } else {
        length := remainingLength;
      }
    }
  }

  /** One more group keeps the accumulated value below the next multiplier. */
  lemma GroupBound(acc: nat, lo: nat, multiplier: nat)
    requires acc < multiplier && lo < 128
    ensures acc + lo * multiplier < 128 * multiplier
  {
  }
}
