/**
 * The under/overflow guard of the serializer tests: `padAndResetBuffer`
 * fills the first and last BUFFER_PADDING_LENGTH bytes of a buffer with
 * BUFFER_PADDING_BYTE and zeroes the bytes between, a serializer then
 * writes into that middle part, and `checkBufferOverflow` confirms that
 * both padded ends are still intact.
 */
module BufferGuard {
  import opened Bytes
  import opened RemainingLength

  /** BUFFER_PADDING_LENGTH. */
  const PaddingLength: nat := 4

  /** BUFFER_PADDING_BYTE. */
  const PaddingByte: byte := 0xA5

  /** The condition `checkBufferOverflow` asserts: both PaddingLength-byte ends of `s` hold the padding byte. */
  predicate PaddingIntact(s: seq<byte>)
    requires |s| >= PaddingLength
  {
    (forall k :: 0 <= k < PaddingLength ==> s[k] == PaddingByte)
    && (forall k :: |s| - PaddingLength <= k < |s| ==> s[k] == PaddingByte)
  }

  /** Whether index `k` of an `n`-byte buffer lies in one of its padded ends. */
  predicate InPadding(n: nat, k: int)
  {
    k < PaddingLength || n - PaddingLength <= k
  }

  /** The contents `padAndResetBuffer` leaves in an `n`-byte buffer. */
  function Padded(n: nat): (r: seq<byte>)
    requires n >= 2 * PaddingLength
    ensures |r| == n
  {
    seq(n, k requires 0 <= k < n => if InPadding(n, k) then PaddingByte else 0)
  }

  /** A freshly padded buffer passes the check, and every byte between the ends is zero. */
  lemma PaddedIsIntact(n: nat)
    requires n >= 2 * PaddingLength
    ensures PaddingIntact(Padded(n))
    ensures forall k :: PaddingLength <= k < n - PaddingLength ==> Padded(n)[k] == 0
  {
  }

  /** A buffer that passed the check still passes it after any change confined to its middle part. */
  lemma {:induction false} InteriorWritesKeepPadding(before: seq<byte>, after: seq<byte>)
    requires |before| == |after| >= PaddingLength
    requires PaddingIntact(before)
    requires forall k :: 0 <= k < |after| && InPadding(|after|, k) ==> after[k] == before[k]
    ensures PaddingIntact(after)
  {
    forall k | 0 <= k < PaddingLength
      ensures after[k] == PaddingByte
    {
      assert InPadding(|after|, k);
    }
    forall k | |after| - PaddingLength <= k < |after|
      ensures after[k] == PaddingByte
    {
      assert InPadding(|after|, k);
    }
  }

  /**
   * padAndResetBuffer: pads both ends of the first `bufferLength` bytes of
   * `buf` and zeroes the rest of them. The C code needs `bufferLength` to be
   * at least twice the padding length: below that the two ends overlap
   * and the memset length wraps around.
   */
  method PadAndResetBuffer(buf: array<byte>, bufferLength: nat)
    requires 2 * PaddingLength <= bufferLength <= buf.Length
    modifies buf
    ensures buf[..bufferLength] == Padded(bufferLength)
    ensures buf[bufferLength..] == old(buf[bufferLength..])
  {
    var i := 0;
    while i < PaddingLength
      invariant 0 <= i <= PaddingLength
      invariant forall k :: 0 <= k < i ==> buf[k] == PaddingByte
      invariant forall k :: bufferLength - i <= k < bufferLength ==> buf[k] == PaddingByte
      invariant forall k :: i <= k < bufferLength - i ==> buf[k] == old(buf[k])
      invariant buf[bufferLength..] == old(buf[bufferLength..])
    {
      buf[i] := PaddingByte;
      buf[bufferLength - 1 - i] := PaddingByte;
      i := i + 1;
    }
    // The memset: zero every byte between the two padded ends.
    var j := PaddingLength;
    while j < bufferLength - PaddingLength
      invariant PaddingLength <= j <= bufferLength - PaddingLength
      invariant forall k :: 0 <= k < bufferLength && InPadding(bufferLength, k) ==> buf[k] == PaddingByte
      invariant forall k :: PaddingLength <= k < j ==> buf[k] == 0
      invariant buf[bufferLength..] == old(buf[bufferLength..])
    {
      buf[j] := 0;
      j := j + 1;
    }
    assert forall k :: 0 <= k < bufferLength ==> buf[k] == Padded(bufferLength)[k];
  }

  /**
   * checkBufferOverflow: true exactly when both padded ends of the first
   * `bufferLength` bytes of `buf` still hold the padding byte. The test
   * assertions that fail the test become the boolean result.
   */
  method CheckBufferOverflow(buf: array<byte>, bufferLength: nat) returns (ok: bool)
    requires PaddingLength <= bufferLength <= buf.Length
    ensures ok <==> PaddingIntact(buf[..bufferLength])
  {
    var i := 0;
    while i < PaddingLength
      invariant 0 <= i <= PaddingLength
      invariant forall k :: 0 <= k < i ==> buf[k] == PaddingByte
    {
      if buf[i] != PaddingByte {
        return false;
      }
      i := i + 1;
    }
    var j := bufferLength - PaddingLength;
    while j < bufferLength
      invariant bufferLength - PaddingLength <= j <= bufferLength
      invariant forall k :: bufferLength - PaddingLength <= k < j ==> buf[k] == PaddingByte
    {
      if buf[j] != PaddingByte {
        return false;
      }
      j := j + 1;
    }
    return true;
  }

  /**
   * The tests' guard pattern around a serializer: pad the whole buffer,
   * write just past the leading padding, then check. Here the write is a
   * Remaining Length. When the encoding fits between the padded ends, the
   * check passes, and the buffer holds the padding, the field, and zeros up
   * to the trailing padding.
   */
  method GuardedEncodeRemainingLength(buf: array<byte>, length: nat) returns (ok: bool)
    requires 2 * PaddingLength + |Encoding(length)| <= buf.Length
    modifies buf
    ensures ok
    ensures PaddingIntact(buf[..])
    ensures buf[PaddingLength..PaddingLength + |Encoding(length)|] == Encoding(length)
    ensures forall k :: PaddingLength + |Encoding(length)| <= k < buf.Length - PaddingLength ==> buf[k] == 0
  {
    PadAndResetBuffer(buf, buf.Length);
    PaddedIsIntact(buf.Length);
    ghost var before := buf[..];
    var written := EncodeRemainingLength(buf, PaddingLength, length);
    InteriorWritesKeepPadding(before, buf[..]);
    ok := CheckBufferOverflow(buf, buf.Length);
    assert buf[..buf.Length] == buf[..];
  }
}
