/** The bit-sequence codec: a compact length prefix carrying the bit count,
    followed by the packed storage of the bits. BitVec, BitSlice and BitBox
    all encode this way; in the model they are all a seq<bool>. */
module BitSeqCodec {
  import opened Binary
  import opened Errors
  import opened Footprint
  import opened Compact
  import opened BitPacker

  /** A bit count whose storage size can be computed without overflowing
      usize: the numerator bits + element_bits - 1 of required_bytes fits. */
  predicate Sizable(len: nat, width: WordWidth) {
    len + width.Bits() - 1 <= USIZE_MAX
  }

  /** Every usize fits the compact encoding, in at most nine bytes. */
  lemma UsizePrefix(n: nat)
    requires n <= USIZE_MAX
    ensures Representable(n) && |CompactEncode(n)| <= 9
  {
    assert MinBytes(n) <= 8 by {
      Pow2Bytes();
      MinBytesLeast(n, 8);
    }
    if n >= 0x4000_0000 {
      assert BigModeBytes(n) <= 8;
    }
  }

  /** The wire bytes of bits: the compact bit count, then the packed body;
      at most nine bytes more than the body. */
  function Encode(bits: seq<bool>, width: WordWidth): (out: seq<Byte>)
    requires Sizable(|bits|, width)
    ensures RequiredBytes(|bits|, width) < |out| <= RequiredBytes(|bits|, width) + 9
  {
    assert width.Bits() >= 1;
    UsizePrefix(|bits|);
    CompactEncode(|bits|) + Pack(bits, width)
  }

  /** A decoded sequence and the number of input bytes it took. */
  datatype Decoded = Decoded(bits: seq<bool>, consumed: nat)

  /** Reads one bit sequence from the front of input. */
  function Decode(input: seq<Byte>, width: WordWidth, mode: Mode): (r: Result<Decoded>)
    ensures r.Ok? ==> r.value.consumed <= |input| && Sizable(|r.value.bits|, width)
  {
    match CompactDecode(input)
    case Err(e) => Err(e)
    case Ok(prefix) => DecodeBody(input, prefix.value, prefix.consumed, width, mode)
  }

  /** Reads the body of len bits that starts at offset start of input. */
  function DecodeBody(input: seq<Byte>, len: nat, start: nat, width: WordWidth, mode: Mode): (r: Result<Decoded>)
    requires start <= |input|
    ensures r.Ok? ==> r.value.consumed <= |input| && |r.value.bits| == len && Sizable(len, width)
  {
    if !Sizable(len, width) then Err(LengthOverflow)
    else
      var need := RequiredBytes(len, width);
      if |input| - start < need then Err(TruncatedBody)
      else Consumed(Unpack(input[start .. start + need], len, width, mode), start + need)
  }

  /** The decoded bits with the bytes they took, or the failure. */
  function Consumed(r: Result<seq<bool>>, consumed: nat): Result<Decoded> {
    match r
    case Err(e) => Err(e)
    case Ok(bits) => Ok(Decoded(bits, consumed))
  }

  /** Decode succeeds once the prefix, the size and the body have been read. */
  lemma DecodeOk(input: seq<Byte>, width: WordWidth, mode: Mode, len: nat, start: nat, bits: seq<bool>)
    requires CompactDecode(input) == Ok(Prefix(len, start)) && Sizable(len, width)
    requires start + RequiredBytes(len, width) <= |input|
    requires Unpack(input[start .. start + RequiredBytes(len, width)], len, width, mode) == Ok(bits)
    ensures Decode(input, width, mode) == Ok(Decoded(bits, start + RequiredBytes(len, width)))
  {
  }

  /** An encoding is the compact bit count followed by the packed body. */
  lemma EncodeParts(bits: seq<bool>, width: WordWidth)
    requires Sizable(|bits|, width)
    ensures Representable(|bits|) && Encode(bits, width) == CompactEncode(|bits|) + Pack(bits, width)
  {
    assert width.Bits() >= 1;
    UsizePrefix(|bits|);
  }

  /** The compact prefix of an encoding decodes to the bit count. */
  lemma PrefixOfParts(n: nat, body: seq<Byte>, rest: seq<Byte>, input: seq<Byte>)
    requires Representable(n)
    requires input == CompactEncode(n) + body + rest
    ensures CompactDecode(input) == Ok(Prefix(n, |CompactEncode(n)|))
  {
    assert input == CompactEncode(n) + (body + rest);
    CompactDecodeEncode(n, body + rest);
  }

  /** The body of an encoding is found right after the prefix. */
  lemma BodyOfParts(prefix: seq<Byte>, body: seq<Byte>, rest: seq<Byte>, input: seq<Byte>)
    requires input == prefix + body + rest
    ensures |prefix| + |body| <= |input| && input[|prefix| .. |prefix| + |body|] == body
  {
  }

  /** A prefix carrying the bit count, the packed body and any further bytes
      decode to the bits, consuming the prefix and the body. */
  lemma DecodeParts(bits: seq<bool>, width: WordWidth, mode: Mode, rest: seq<Byte>, input: seq<Byte>)
    requires Sizable(|bits|, width) && Representable(|bits|)
    requires input == CompactEncode(|bits|) + Pack(bits, width) + rest
    ensures Decode(input, width, mode) == Ok(Decoded(bits, |CompactEncode(|bits|)| + |Pack(bits, width)|))
  {
    PrefixOfParts(|bits|, Pack(bits, width), rest, input);
    BodyOfParts(CompactEncode(|bits|), Pack(bits, width), rest, input);
    UnpackPack(bits, width, mode);
    DecodeOk(input, width, mode, |bits|, |CompactEncode(|bits|)|, bits);
  }

  /** Decoding an encoding, whatever bytes follow it, gives back the bits and
      consumes exactly the encoding. This is the round trip every test of the
      module asserts. */
  lemma DecodeEncode(bits: seq<bool>, width: WordWidth, mode: Mode, rest: seq<Byte>)
    requires Sizable(|bits|, width)
    ensures Decode(Encode(bits, width) + rest, width, mode) == Ok(Decoded(bits, |Encode(bits, width)|))
  {
    EncodeParts(bits, width);
    DecodeParts(bits, width, mode, rest, Encode(bits, width) + rest);
  }

  /** Different sequences never share an encoding. */
  lemma EncodeInjective(a: seq<bool>, b: seq<bool>, width: WordWidth)
    requires Sizable(|a|, width) && Sizable(|b|, width)
    requires Encode(a, width) == Encode(b, width)
    ensures a == b
  {
    DecodeEncode(a, width, Lenient, []);
    DecodeEncode(b, width, Lenient, []);
  }

  /** A length prefix that cannot be read fails the whole decode. */
  lemma DecodeNoPrefix(input: seq<Byte>, width: WordWidth, mode: Mode)
    requires CompactDecode(input).Err?
    ensures Decode(input, width, mode) == Err(TruncatedLengthPrefix)
  {
  }

  /** A body shorter than its bit count needs fails with TruncatedBody. */
  lemma DecodeShortBody(input: seq<Byte>, width: WordWidth, mode: Mode, len: nat, start: nat)
    requires CompactDecode(input) == Ok(Prefix(len, start)) && Sizable(len, width)
    requires |input| < start + RequiredBytes(len, width)
    ensures Decode(input, width, mode) == Err(TruncatedBody)
  {
  }

  /** A cut inside the compact prefix leaves a truncated prefix. */
  lemma CutInPrefix(n: nat, body: seq<Byte>, t: nat, input: seq<Byte>)
    requires Representable(n) && t < |CompactEncode(n)|
    requires input == (CompactEncode(n) + body)[..t]
    ensures CompactDecode(input).Err?
  {
    assert input == CompactEncode(n)[..t];
    CompactTruncated(n, t);
  }

  /** A cut inside the body leaves the prefix readable and the body short. */
  lemma CutInBody(n: nat, body: seq<Byte>, t: nat, input: seq<Byte>)
    requires Representable(n) && |CompactEncode(n)| <= t < |CompactEncode(n)| + |body|
    requires input == (CompactEncode(n) + body)[..t]
    ensures CompactDecode(input) == Ok(Prefix(n, |CompactEncode(n)|))
    ensures |input| < |CompactEncode(n)| + |body|
  {
    var prefix := CompactEncode(n);
    assert input == prefix + body[..t - |prefix|];
    CompactDecodeEncode(n, body[..t - |prefix|]);
  }

  /** Every proper prefix of an encoding is rejected as truncated: in the length
      prefix or in the body, never decoded to some other sequence. */
  lemma TruncatedEncodingRejected(bits: seq<bool>, width: WordWidth, mode: Mode, t: nat)
    requires Sizable(|bits|, width) && t < |Encode(bits, width)|
    ensures Decode(Encode(bits, width)[..t], width, mode) == Err(TruncatedLengthPrefix)
         || Decode(Encode(bits, width)[..t], width, mode) == Err(TruncatedBody)
  {
    EncodeParts(bits, width);
    var n, body := |bits|, Pack(bits, width);
    var input := Encode(bits, width)[..t];
    if t < |CompactEncode(n)| {
      CutInPrefix(n, body, t, input);
      DecodeNoPrefix(input, width, mode);
    } else {
      CutInBody(n, body, t, input);
      DecodeShortBody(input, width, mode, n, |CompactEncode(n)|);
    }
  }

  /** A body that was read successfully is the one unpacked from the bytes
      right after start. */
  lemma DecodeBodyOk(input: seq<Byte>, len: nat, start: nat, width: WordWidth, mode: Mode, d: Decoded)
    requires start <= |input| && DecodeBody(input, len, start, width, mode) == Ok(d)
    ensures d.consumed == start + RequiredBytes(len, width) <= |input|
    ensures Unpack(input[start .. d.consumed], len, width, mode) == Ok(d.bits)
  {
  }

  /** A body that strict reading accepts is the body Pack writes for the bits read. */
  lemma StrictDecodeBodyCanonical(input: seq<Byte>, len: nat, start: nat, width: WordWidth, d: Decoded)
    requires start <= |input| && DecodeBody(input, len, start, width, Strict) == Ok(d)
    ensures d.consumed == start + RequiredBytes(len, width)
    ensures input[start .. d.consumed] == Pack(d.bits, width)
  {
    DecodeBodyOk(input, len, start, width, Strict, d);
    StrictUnpackCanonical(input[start .. d.consumed], len, width, d.bits);
  }

  /** Strict decoding accepts a body only if it is exactly the body Encode
      writes for the bits read: every padding bit of it is zero. */
  lemma StrictDecodeCanonical(input: seq<Byte>, width: WordWidth, d: Decoded)
    requires Decode(input, width, Strict) == Ok(d)
    ensures RequiredBytes(|d.bits|, width) <= d.consumed
    ensures input[d.consumed - RequiredBytes(|d.bits|, width) .. d.consumed] == Pack(d.bits, width)
  {
    var prefix := CompactDecode(input).value;
    StrictDecodeBodyCanonical(input, prefix.value, prefix.consumed, width, d);
  }

  /** The two modes read a body alike wherever strict reading succeeds, and
      fail alike wherever lenient reading fails. */
  lemma DecodeBodyModes(input: seq<Byte>, len: nat, start: nat, width: WordWidth)
    requires start <= |input|
    ensures DecodeBody(input, len, start, width, Strict).Ok? ==>
              DecodeBody(input, len, start, width, Lenient) == DecodeBody(input, len, start, width, Strict)
    ensures DecodeBody(input, len, start, width, Lenient).Err? ==>
              DecodeBody(input, len, start, width, Strict) == DecodeBody(input, len, start, width, Lenient)
  {
    if Sizable(len, width) {
      var need := RequiredBytes(len, width);
      if |input| - start >= need {
        LenientUnpack(input[start .. start + need], len, width);
      }
    }
  }

  /** Lenient decoding accepts everything strict decoding accepts, with the
      same result, and fails only where strict decoding fails the same way. */
  lemma DecodeModes(input: seq<Byte>, width: WordWidth)
    ensures Decode(input, width, Strict).Ok? ==> Decode(input, width, Lenient) == Decode(input, width, Strict)
    ensures Decode(input, width, Lenient).Err? ==> Decode(input, width, Strict) == Decode(input, width, Lenient)
  {
    match CompactDecode(input)
    case Err(_) =>
    case Ok(prefix) =>
      DecodeBodyModes(input, prefix.value, prefix.consumed, width);
  }
}
