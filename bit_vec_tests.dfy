/** The obligations of the bit_vec test module, stated over the model: the
    required_bytes table, the round trip of every fixture at every storage
    width, and the byte-slice and boxed-slice cases. Each concrete fact is
    proved in a lemma of its own from the general lemmas of the codec. */
module BitVecTests {
  import opened Binary
  import opened Errors
  import opened Footprint
  import opened Compact
  import opened BitPacker
  import opened BitSeqCodec

  // ---------------------------------------------------------------------
  // required_bytes
  // ---------------------------------------------------------------------

  /** The boundaries of required_bytes at one width: nothing for no bits, one
      element from one bit up to a full element, two elements one bit later. */
  lemma RequiredBytesBoundaries(width: WordWidth)
    ensures RequiredBytes(0, width) == 0
    ensures RequiredBytes(1, width) == width.Size()
    ensures RequiredBytes(width.Bits() - 1, width) == width.Size()
    ensures RequiredBytes(width.Bits(), width) == width.Size()
    ensures RequiredBytes(width.Bits() + 1, width) == 2 * width.Size()
  {
    RequiredBytesZero(width);
    RequiredBytesOneElement(1, width);
    RequiredBytesOneElement(width.Bits() - 1, width);
    RequiredBytesOneElement(width.Bits(), width);
    RequiredBytesOneMore(1, width);
  }

  /** The required_bytes assertions for u8. */
  lemma RequiredBytesU8()
    ensures RequiredBytes(0, W8) == 0 && RequiredBytes(1, W8) == 1 && RequiredBytes(7, W8) == 1
    ensures RequiredBytes(8, W8) == 1 && RequiredBytes(9, W8) == 2
  {
    RequiredBytesBoundaries(W8);
  }

  /** The required_bytes assertions for u16. */
  lemma RequiredBytesU16()
    ensures RequiredBytes(0, W16) == 0 && RequiredBytes(1, W16) == 2 && RequiredBytes(15, W16) == 2
    ensures RequiredBytes(16, W16) == 2 && RequiredBytes(17, W16) == 4
  {
    RequiredBytesBoundaries(W16);
  }

  /** The required_bytes assertions for u32. */
  lemma RequiredBytesU32()
    ensures RequiredBytes(0, W32) == 0 && RequiredBytes(1, W32) == 4 && RequiredBytes(31, W32) == 4
    ensures RequiredBytes(32, W32) == 4 && RequiredBytes(33, W32) == 8
  {
    RequiredBytesBoundaries(W32);
  }

  /** The required_bytes assertions for u64. */
  lemma RequiredBytesU64()
    ensures RequiredBytes(0, W64) == 0 && RequiredBytes(1, W64) == 8 && RequiredBytes(63, W64) == 8
    ensures RequiredBytes(64, W64) == 8 && RequiredBytes(65, W64) == 16
  {
    RequiredBytesBoundaries(W64);
  }

  // ---------------------------------------------------------------------
  // The test_data! fixtures
  // ---------------------------------------------------------------------

  /** The test_data! fixtures, in order. */
  function TestVectors(): seq<seq<bool>> {
    [ [],
      [false],
      [true],
      [false, false],
      [true, false],
      [false, true],
      [true, true],
      [true, false, true],
      [false, true, false, true, false, true, true],
      [false, true, false, true, false, true, true, false],
      [true, true, false, true, false, true, true, false, true],
      [true, false, true, false, true, true, false, false, true, false, true, false, true, true, false],
      [false, true, false, true, false, true, true, false, false, true, false, true, false, true, true, false],
      [false, true, false, true, false, true, true, false, false, true, false, true, false, true, true, false, false],
      seq(15, _ => false),
      seq(16, _ => true),
      seq(17, _ => false),
      seq(31, _ => true),
      seq(32, _ => false),
      seq(33, _ => true),
      seq(63, _ => false),
      seq(64, _ => true),
      seq(65, _ => false) ]
  }

  /** bitvec_u8, bitvec_u16, bitvec_u32, bitvec_u64: every fixture decodes back
      from its encoding at every storage width, in either decoding mode. */
  lemma TestVectorsRoundTrip(width: WordWidth, mode: Mode)
    ensures forall i :: 0 <= i < |TestVectors()| ==>
              Sizable(|TestVectors()[i]|, width)
              && Decode(Encode(TestVectors()[i], width), width, mode)
                 == Ok(Decoded(TestVectors()[i], |Encode(TestVectors()[i], width)|))
  {
    forall i | 0 <= i < |TestVectors()|
      ensures Sizable(|TestVectors()[i]|, width)
      ensures Decode(Encode(TestVectors()[i], width), width, mode)
              == Ok(Decoded(TestVectors()[i], |Encode(TestVectors()[i], width)|))
    {
      var v := TestVectors()[i];
      assert |v| <= 65;
      DecodeEncode(v, width, mode, []);
      assert Encode(v, width) + [] == Encode(v, width);
    }
  }

  // ---------------------------------------------------------------------
  // Byte slices viewed as bits
  // ---------------------------------------------------------------------

  /** Any byte count is a whole number of one-byte elements. */
  lemma {:induction false} WholeBytes(n: nat)
    ensures WholeElements(n, 1)
  {
    if n > 0 {
      WholeBytes(n - 1);
    }
  }

  /** The bits of a byte slice viewed as BitSlice<Msb0, u8>: each byte most
      significant bit first. */
  function FromBytes(data: seq<Byte>): (bits: seq<bool>)
    ensures |bits| == 8 * |data|
  {
    WholeBytes(|data|);
    WordBits(data, 1)
  }

  /** One byte read MSB-first is its eight binary digits. */
  lemma FromOneByte(x: Byte)
    ensures FromBytes([x]) == NatToBits(x, 8)
  {
    WholeBytes(1);
    assert [x][..1] == [x] && [x][1..] == [];
  }

  /** Two bytes read MSB-first are the digits of the first, then of the second. */
  lemma FromTwoBytes(x: Byte, y: Byte)
    ensures FromBytes([x, y]) == NatToBits(x, 8) + NatToBits(y, 8)
  {
    WholeBytes(2);
    WholeBytes(1);
    assert [x, y][..1] == [x] && [x, y][1..] == [y];
    FromOneByte(y);
  }

  /** Packing the MSB-first bits of whole bytes into u8 storage gives back the bytes. */
  lemma PackFromBytes(data: seq<Byte>)
    ensures Pack(FromBytes(data), W8) == data
  {
    var bits := FromBytes(data);
    RequiredBytesExact(|data|, W8);
    assert PaddingBits(|bits|, W8) == 0;
    assert Padded(bits, W8) == bits;
    WholeBytes(|data|);
    PackWordsOfWordBits(data, 1);
  }

  /** Over u8 storage a byte slice is stored as its own bytes, after the
      compact bit count. */
  lemma EncodeFromBytes(data: seq<Byte>)
    requires Sizable(8 * |data|, W8)
    ensures Representable(8 * |data|)
    ensures Encode(FromBytes(data), W8) == CompactEncode(8 * |data|) + data
  {
    EncodeParts(FromBytes(data), W8);
    PackFromBytes(data);
  }

  /** bitslice and bitbox for every byte slice: the bit count followed by the
      bytes decodes, over u8 storage, to the bits of the slice and consumes
      exactly those bytes. */
  lemma FromBytesRoundTrip(data: seq<Byte>, mode: Mode)
    requires Sizable(8 * |data|, W8)
    ensures Representable(8 * |data|)
    ensures Decode(CompactEncode(8 * |data|) + data, W8, mode)
            == Ok(Decoded(FromBytes(data), |CompactEncode(8 * |data|)| + |data|))
  {
    EncodeFromBytes(data);
    DecodeEncode(FromBytes(data), W8, mode, []);
    assert Encode(FromBytes(data), W8) + [] == Encode(FromBytes(data), W8);
  }

  /** A slice of at most seven bytes: its bit count takes one byte. */
  lemma ShortSliceCase(data: seq<Byte>, mode: Mode)
    requires |data| < 8
    ensures Encode(FromBytes(data), W8) == [32 * |data|] + data
    ensures Decode([32 * |data|] + data, W8, mode) == Ok(Decoded(FromBytes(data), 1 + |data|))
  {
    CompactSingleByte(8 * |data|);
    EncodeFromBytes(data);
    FromBytesRoundTrip(data, mode);
  }

  /** A count below 64 is the single byte holding it shifted left by two. */
  lemma CompactSingleByte(n: nat)
    requires n < 0x40
    ensures Representable(n) && CompactEncode(n) == [4 * n]
  {
    Pow2Eight();
    MinBytesLeast(n, 1);
  }

  /** The binary digits of 0x69. */
  lemma DigitsOf0x69()
    ensures NatToBits(0x69, 8) == [false, true, true, false, true, false, false, true]
  {
  }

  /** The binary digits of 5. */
  lemma DigitsOf5()
    ensures NatToBits(5, 8) == [false, false, false, false, false, true, false, true]
  {
  }

  /** The binary digits of 10. */
  lemma DigitsOf10()
    ensures NatToBits(10, 8) == [false, false, false, false, true, false, true, false]
  {
  }

  /** The binary digits of 0x81. */
  lemma DigitsOf0x81()
    ensures NatToBits(0x81, 8) == [true, false, false, false, false, false, false, true]
  {
  }

  /** bitslice: the byte 0x69 read MSB-first is 0,1,1,0,1,0,0,1. */
  lemma ByteSliceBits()
    ensures FromBytes([0x69]) == [false, true, true, false, true, false, false, true]
  {
    FromOneByte(0x69);
    DigitsOf0x69();
  }

  /** bitslice: the slice encodes as the bit count 8 and the byte itself, and
      decodes back to the same bits. */
  lemma ByteSliceCase(mode: Mode)
    ensures Encode(FromBytes([0x69]), W8) == [0x20, 0x69]
    ensures Decode([0x20, 0x69], W8, mode) == Ok(Decoded(FromBytes([0x69]), 2))
  {
    ShortSliceCase([0x69], mode);
    assert [32 * 1] + [0x69] == [0x20, 0x69];
  }

  /** bitbox: the bytes 5, 10 read MSB-first. */
  lemma BoxedSliceBits()
    ensures FromBytes([5, 10]) == [false, false, false, false, false, true, false, true,
                                   false, false, false, false, true, false, true, false]
  {
    FromTwoBytes(5, 10);
    DigitsOf5();
    DigitsOf10();
  }

  /** bitbox: the bits encode as the bit count 16 and the bytes themselves,
      and decode back to the same sixteen bits. */
  lemma BoxedSliceCase(mode: Mode)
    ensures Encode(FromBytes([5, 10]), W8) == [0x40, 5, 10]
    ensures Decode([0x40, 5, 10], W8, mode) == Ok(Decoded(FromBytes([5, 10]), 3))
  {
    ShortSliceCase([5, 10], mode);
    assert [32 * 2] + [5, 10] == [0x40, 5, 10];
  }

  // ---------------------------------------------------------------------
  // Small encodings and the error paths
  // ---------------------------------------------------------------------

  /** The packed storage of no bits is empty. */
  lemma PackEmpty(width: WordWidth)
    ensures Pack([], width) == []
  {
    RequiredBytesZero(width);
  }

  /** The encoding of no bits is the count 0 and the empty storage. */
  lemma EmptyParts(width: WordWidth)
    ensures Encode([], width) == CompactEncode(0) + Pack([], width)
  {
    EncodeParts([], width);
  }

  /** The count 0 is the byte 0. */
  lemma CountZero()
    ensures CompactEncode(0) == [0x00]
  {
    CompactSingleByte(0);
  }

  /** The empty sequence is the single byte 0 at every width. */
  lemma EmptyEncoding(width: WordWidth)
    ensures Encode([], width) == [0x00]
  {
    EmptyParts(width);
    PackEmpty(width);
    CountZero();
  }

  /** Bits that pad to the digits of one byte are stored as that byte over u8 storage. */
  lemma PackOneByte(bits: seq<bool>, x: Byte)
    requires Padded(bits, W8) == NatToBits(x, 8)
    ensures Pack(bits, W8) == [x]
  {
    var p := Padded(bits, W8);
    assert p[..8] == p && p[8..] == [] && p[8 * 0..] == p;
    Pow2Eight();
    BitsToNatOfNatToBits(x, 8);
  }

  /** The binary digits of 0x80. */
  lemma DigitsOf0x80()
    ensures NatToBits(0x80, 8) == [true, false, false, false, false, false, false, false]
  {
  }

  /** One set bit padded to a byte is 0b1000_0000. */
  lemma PackSingleBit()
    ensures Pack([true], W8) == [0x80]
  {
    RequiredBytesOneElement(1, W8);
    assert Padded([true], W8) == [true, false, false, false, false, false, false, false];
    DigitsOf0x80();
    PackOneByte([true], 0x80);
  }

  /** A single set bit over u8 storage is the count 1 and the byte 0b1000_0000:
      the bit takes the most significant position and the padding is zero. */
  lemma SingleBitEncoding()
    ensures Encode([true], W8) == [0x04, 0x80]
  {
    EncodeParts([true], W8);
    PackSingleBit();
    CompactSingleByte(1);
  }

  /** Nine bits take one length byte and two body bytes at u8 and at u16. */
  lemma NineBits(bits: seq<bool>)
    requires |bits| == 9
    ensures |Encode(bits, W8)| == 3 && |Encode(bits, W16)| == 3
  {
    EncodeParts(bits, W8);
    EncodeParts(bits, W16);
    CompactSingleByte(9);
    RequiredBytesOneMore(1, W8);
    RequiredBytesOneElement(9, W16);
  }

  /** An input whose first byte has the tag 0b00 carries its count in that byte. */
  lemma DecodeSingleBytePrefix(input: seq<Byte>, width: WordWidth, mode: Mode)
    requires |input| >= 1 && input[0] % 4 == 0
    ensures Decode(input, width, mode) == DecodeBody(input, input[0] / 4, 1, width, mode)
  {
  }

  /** A body of one byte holding up to eight bits over u8 storage. */
  lemma UnpackOneByte(x: Byte, len: nat, mode: Mode)
    requires 1 <= len <= 8
    ensures Unpack([x], len, W8, mode)
            == if mode == Strict && !AllZero(NatToBits(x, 8)[len..]) then Err(NonZeroPadding)
               else Ok(NatToBits(x, 8)[..len])
  {
    RequiredBytesOneElement(len, W8);
    FromOneByte(x);
  }

  /** One bit read from the byte 0x81: strict decoding rejects the set padding bit. */
  lemma UnpackPaddedByte(mode: Mode)
    ensures Unpack([0x81], 1, W8, mode)
            == if mode == Strict then Err(NonZeroPadding) else Ok([true])
  {
    UnpackOneByte(0x81, 1, mode);
    DigitsOf0x81();
    var d := NatToBits(0x81, 8);
    assert d[1..][6];
    assert d[..1] == [true];
  }

  /** Two bytes whose first is the count 1 over u8 storage: the second is the body. */
  lemma OneBitInput(input: seq<Byte>, mode: Mode)
    requires |input| == 2 && input[0] == 0x04
    ensures Decode(input, W8, mode) == Consumed(Unpack(input[1..], 1, W8, mode), 2)
  {
    DecodeSingleBytePrefix(input, W8, mode);
    RequiredBytesOneElement(1, W8);
    assert input[1..1 + 1] == input[1..];
  }

  /** The body of [0x04, 0x81] is its second byte. */
  lemma PaddedInputBody(mode: Mode)
    ensures Decode([0x04, 0x81], W8, mode) == Consumed(Unpack([0x81], 1, W8, mode), 2)
  {
    var input: seq<Byte> := [0x04, 0x81];
    OneBitInput(input, mode);
    assert input[1..] == [0x81];
  }

  /** A set padding bit is rejected by strict decoding and ignored by lenient decoding. */
  lemma PaddingModes(mode: Mode)
    ensures Decode([0x04, 0x81], W8, mode)
            == if mode == Strict then Err(NonZeroPadding) else Ok(Decoded([true], 2))
  {
    PaddedInputBody(mode);
    UnpackPaddedByte(mode);
  }

  /** No input, no count. */
  lemma EmptyInput(width: WordWidth, mode: Mode)
    ensures Decode([], width, mode) == Err(TruncatedLengthPrefix)
  {
  }

  /** The tag 0b01 announces a two-byte count; one byte is not enough. */
  lemma CutTwoBytePrefix(width: WordWidth, mode: Mode)
    ensures Decode([0x01], width, mode) == Err(TruncatedLengthPrefix)
  {
  }

  /** A count of eight bits with no body after it. */
  lemma MissingBody(width: WordWidth, mode: Mode)
    ensures Decode([0x20], width, mode) == Err(TruncatedBody)
  {
    DecodeSingleBytePrefix([0x20], width, mode);
  }

  /** Eight bytes 0xFF are usize::MAX. */
  lemma AllOnesValue()
    ensures LeValue([0xFF, 0xFF, 0xFF, 0xFF, 0xFF, 0xFF, 0xFF, 0xFF]) == USIZE_MAX
  {
  }

  /** The header 0x13 announces eight count bytes. */
  lemma BigPrefix(input: seq<Byte>)
    requires |input| == 9 && input[0] == 0x13
    ensures CompactDecode(input) == Ok(Prefix(LeValue(input[1..]), 9))
  {
    assert input[1..1 + 8] == input[1..];
  }

  /** A count of usize::MAX bits, whose storage size would overflow. */
  lemma OverflowingCount(width: WordWidth, mode: Mode)
    ensures Decode([0x13, 0xFF, 0xFF, 0xFF, 0xFF, 0xFF, 0xFF, 0xFF, 0xFF], width, mode) == Err(LengthOverflow)
  {
    var input: seq<Byte> := [0x13, 0xFF, 0xFF, 0xFF, 0xFF, 0xFF, 0xFF, 0xFF, 0xFF];
    BigPrefix(input);
    assert input[1..] == [0xFF, 0xFF, 0xFF, 0xFF, 0xFF, 0xFF, 0xFF, 0xFF];
    AllOnesValue();
  }
}
