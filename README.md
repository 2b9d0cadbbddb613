# Bit-sequence codec of the SCALE codec enclave tests, in Dafny

The enclave test module `bit_vec.rs` checks two things about the SCALE codec
for bit sequences (`BitVec<Msb0, T>`, `BitSlice<Msb0, u8>`, `BitBox<Msb0, u8>`):

- `required_bytes::<T>(bits)`: the number of bytes that `bits` bits occupy in an array of `T`;
- that every fixture of `test_data!` decodes back from its encoding, for `T` = `u8`, `u16`, `u32` and `u64`,
  and that the byte slice `[0x69]` and the boxed slice `[5, 10]`, viewed MSB-first, do too.

The model states `required_bytes` exactly and proves its footprint contract. It also gives a
reference codec for the wire format the round trips go through, and proves the round trips
for every width and every bit sequence. The wire format is:

1. the bit count as a SCALE compact integer;
2. a body of `required_bytes(len)` bytes holding the bits MSB-first in `T`-sized elements,
   each element written as its little-endian bytes, with zero padding after the last bit.

Modules, leaves first:

- `Errors`: the decode failures `TruncatedLengthPrefix`, `TruncatedBody`, `NonZeroPadding` and `LengthOverflow`.
- `Binary`: little-endian bytes and MSB-first binary digits of numbers.
- `Footprint`: the storage width `T` (as `WordWidth`) and `required_bytes`.
- `Compact`: the SCALE compact integer that carries the bit count.
- `BitPacker`: packing bits into elements and reading them back.
  Decoding has a `Mode`: `Strict` rejects set padding bits, `Lenient` ignores them.
- `BitSeqCodec`: `Encode` and `Decode` of a whole bit sequence.
- `BitVecTests`: the assertions of the test module as lemmas over the model.

`usize` is the 64-bit `usize` of the enclave target. `Encode` requires that `required_bytes`
can be computed without overflow: `len + element_bits - 1 <= usize::MAX`. `Decode` reports
`LengthOverflow` for a count that breaks this.

`required_bytes::<u16>(9)` is 2 (`bit_vec.rs:10-13`), so nine bits take three bytes over `u16`,
as over `u8` (`BitVecTests.NineBits`).

## Model

| member | source | states |
|---|---|---|
| Footprint.RequiredElements | sgx/parity-scale-codec-sgx-test/enclave/src/bit_vec.rs:10-12 | the element count is the ceiling of bits / element_bits: its elements hold the bits, and it is less than one element more than they need |
| Footprint.RequiredBytes | sgx/parity-scale-codec-sgx-test/enclave/src/bit_vec.rs:10-13 | the bytes are enough for the bits (`bits <= 8 * r`) and less than one element more (`8 * r < bits + element_bits`) |
| Footprint.RequiredBytesWhole | sgx/parity-scale-codec-sgx-test/enclave/src/bit_vec.rs:12 | the result is a multiple of size_of::<T>() |
| Footprint.RequiredBytesLeast | sgx/parity-scale-codec-sgx-test/enclave/src/bit_vec.rs:9-12 | no whole number of elements that holds the bits is smaller: the result is minimal |
| Footprint.RequiredBytesMonotone | sgx/parity-scale-codec-sgx-test/enclave/src/bit_vec.rs:12 | more bits never need fewer bytes |
| Footprint.RequiredBytesZero | sgx/parity-scale-codec-sgx-test/enclave/src/bit_vec.rs:46 | no bits need no bytes, at every width |
| Footprint.RequiredBytesOneElement | sgx/parity-scale-codec-sgx-test/enclave/src/bit_vec.rs:47-49 | from one bit up to a full element, exactly one element is used |
| Footprint.RequiredBytesExact | sgx/parity-scale-codec-sgx-test/enclave/src/bit_vec.rs:12 | k whole elements of bits take exactly k elements: no padding element |
| Footprint.RequiredBytesOneMore | sgx/parity-scale-codec-sgx-test/enclave/src/bit_vec.rs:49-50 | one bit past k whole elements takes k + 1 elements |
| BitVecTests.RequiredBytesBoundaries | sgx/parity-scale-codec-sgx-test/enclave/src/bit_vec.rs:45-69 | at every width: 0 bits take 0 bytes; 1, w-1 and w bits take one element; w+1 bits take two |
| BitVecTests.RequiredBytesU8 | sgx/parity-scale-codec-sgx-test/enclave/src/bit_vec.rs:46-50 | the five u8 assertions: 0, 1, 1, 1, 2 bytes for 0, 1, 7, 8, 9 bits |
| BitVecTests.RequiredBytesU16 | sgx/parity-scale-codec-sgx-test/enclave/src/bit_vec.rs:52-56 | the five u16 assertions: 0, 2, 2, 2, 4 bytes for 0, 1, 15, 16, 17 bits |
| BitVecTests.RequiredBytesU32 | sgx/parity-scale-codec-sgx-test/enclave/src/bit_vec.rs:58-62 | the five u32 assertions: 0, 4, 4, 4, 8 bytes for 0, 1, 31, 32, 33 bits |
| BitVecTests.RequiredBytesU64 | sgx/parity-scale-codec-sgx-test/enclave/src/bit_vec.rs:64-68 | the five u64 assertions: 0, 8, 8, 8, 16 bytes for 0, 1, 63, 64, 65 bits |
| Compact.CompactEncode | sgx/parity-scale-codec-sgx-test/enclave/src/bit_vec.rs:73 | the bit count prefix of `v.encode()` takes between 1 and 68 bytes |
| Compact.CompactDecode | sgx/parity-scale-codec-sgx-test/enclave/src/bit_vec.rs:74 | a prefix read by `decode` consumes at least one byte and no more than the input; its only failure is a truncated prefix |
| Compact.CompactDecodeEncode | sgx/parity-scale-codec-sgx-test/enclave/src/bit_vec.rs:73-74 | reading the prefix of a count, whatever follows it, gives the count and consumes exactly the prefix |
| Compact.CompactEncodeClass | sgx/parity-scale-codec-sgx-test/enclave/src/bit_vec.rs:73 | the bit count prefix uses the smallest size class that holds the count: one byte below 2^6, two below 2^14, four below 2^30, otherwise a header announcing max(4, fewest bytes holding the count) value bytes, with the class tag in the low two bits of the first byte |
| Compact.CompactTruncated | sgx/parity-scale-codec-sgx-test/enclave/src/bit_vec.rs:74 | every proper prefix of a compact count fails with TruncatedLengthPrefix |
| BitPacker.PaddingBits | sgx/parity-scale-codec-sgx-test/enclave/src/bit_vec.rs:10-13 | the bits and the padding fill the required bytes, and the padding is less than one element |
| BitPacker.DecodeEncodeElement | sgx/parity-scale-codec-sgx-test/enclave/src/bit_vec.rs:71-97 | an element written as bytes reads back as the same bits |
| BitPacker.EncodeDecodeElement | sgx/parity-scale-codec-sgx-test/enclave/src/bit_vec.rs:71-97 | element bytes read as bits and written back are the same bytes |
| BitPacker.DecodeElementValue | sgx/parity-scale-codec-sgx-test/enclave/src/bit_vec.rs:71-97 | an element's bits are the binary digits, most significant first, of the little-endian number its bytes stand for |
| BitPacker.WordBitsOfPackWords | sgx/parity-scale-codec-sgx-test/enclave/src/bit_vec.rs:71-97 | reading packed whole elements back gives the packed bits |
| BitPacker.PackWordsOfWordBits | sgx/parity-scale-codec-sgx-test/enclave/src/bit_vec.rs:71-97 | packing the bits read from whole elements gives back the same bytes |
| BitPacker.Padded | sgx/parity-scale-codec-sgx-test/enclave/src/bit_vec.rs:10-13 | the padded bits fill exactly the required bytes, a whole number of elements |
| BitPacker.Pack | sgx/parity-scale-codec-sgx-test/enclave/src/bit_vec.rs:10-13 | the body of an encoding is exactly required_bytes(len) bytes long |
| BitPacker.Unpack | sgx/parity-scale-codec-sgx-test/enclave/src/bit_vec.rs:74 | a successful read gives exactly len bits; a failure is a body of the wrong length, or set padding under Strict |
| BitPacker.PackPaddingIsZero | sgx/parity-scale-codec-sgx-test/enclave/src/bit_vec.rs:71-97 | the storage written holds the bits followed by zero padding bits only |
| BitPacker.UnpackPack | sgx/parity-scale-codec-sgx-test/enclave/src/bit_vec.rs:71-97 | reading a packed body gives back the bits, in either mode |
| BitPacker.UnpackOk | sgx/parity-scale-codec-sgx-test/enclave/src/bit_vec.rs:74 | a successful read had a body of required_bytes(len) bytes and returns its first len storage bits |
| BitPacker.StrictUnpackOk | sgx/parity-scale-codec-sgx-test/enclave/src/bit_vec.rs:74 | a successful strict read saw only zero padding bits |
| BitPacker.StrictUnpackCanonical | sgx/parity-scale-codec-sgx-test/enclave/src/bit_vec.rs:71-97 | a body the strict read accepts is exactly the packing of the bits it returns: encodings are canonical |
| BitPacker.LenientUnpack | sgx/parity-scale-codec-sgx-test/enclave/src/bit_vec.rs:74 | the lenient read fails if and only if the body length is wrong, and agrees with the strict read wherever that succeeds |
| BitPacker.WordBitsWeight | sgx/parity-scale-codec-sgx-test/enclave/src/bit_vec.rs:71-97 | storage bit k * w + o is the digit of weight 2^(w-1-o) of element k's little-endian value |
| BitPacker.PackLayout | sgx/parity-scale-codec-sgx-test/enclave/src/bit_vec.rs:71-97 | in the packed body, bit k * w + o of the sequence is the digit of weight 2^(w-1-o) of element k (Msb0), and padding digits are zero |
| BitSeqCodec.UsizePrefix | sgx/parity-scale-codec-sgx-test/enclave/src/bit_vec.rs:73 | every usize bit count has a compact prefix of at most nine bytes |
| BitSeqCodec.Encode | sgx/parity-scale-codec-sgx-test/enclave/src/bit_vec.rs:73 | `v.encode()` is longer than the body of required_bytes(len) bytes by one to nine prefix bytes |
| BitSeqCodec.Decode | sgx/parity-scale-codec-sgx-test/enclave/src/bit_vec.rs:74 | a successful decode consumes no more than the input and returns a bit count whose footprint fits usize |
| BitSeqCodec.DecodeBody | sgx/parity-scale-codec-sgx-test/enclave/src/bit_vec.rs:74 | a successful body read returns exactly the announced number of bits |
| BitSeqCodec.DecodeEncode | sgx/parity-scale-codec-sgx-test/enclave/src/bit_vec.rs:71-97 | decoding an encoding, whatever bytes follow it, returns the same bits at every width and in either mode, consuming exactly the encoding |
| BitSeqCodec.EncodeInjective | sgx/parity-scale-codec-sgx-test/enclave/src/bit_vec.rs:71-97 | different bit sequences have different encodings |
| BitSeqCodec.DecodeNoPrefix | sgx/parity-scale-codec-sgx-test/enclave/src/bit_vec.rs:74 | an input without a complete prefix fails with TruncatedLengthPrefix |
| BitSeqCodec.DecodeShortBody | sgx/parity-scale-codec-sgx-test/enclave/src/bit_vec.rs:74 | an input shorter than the prefix plus the announced body fails with TruncatedBody |
| BitSeqCodec.TruncatedEncodingRejected | sgx/parity-scale-codec-sgx-test/enclave/src/bit_vec.rs:71-97 | every proper prefix of an encoding fails with TruncatedLengthPrefix or TruncatedBody, never succeeds |
| BitSeqCodec.DecodeBodyOk | sgx/parity-scale-codec-sgx-test/enclave/src/bit_vec.rs:74 | a successful body read consumed exactly required_bytes(len) bytes after the prefix, which read back as the bits |
| BitSeqCodec.StrictDecodeCanonical | sgx/parity-scale-codec-sgx-test/enclave/src/bit_vec.rs:74 | the body a strict decode accepted is exactly the packing of the bits it returned |
| BitSeqCodec.DecodeModes | sgx/parity-scale-codec-sgx-test/enclave/src/bit_vec.rs:74 | wherever strict decoding succeeds, lenient decoding gives the same result; wherever lenient decoding fails, strict fails the same way |
| BitVecTests.TestVectorsRoundTrip | sgx/parity-scale-codec-sgx-test/enclave/src/bit_vec.rs:71-97 | bitvec_u8/u16/u32/u64: each of the 23 test_data! fixtures (lines 18-40) decodes from its encoding to itself, at every width and in either mode |
| BitVecTests.FromBytes | sgx/parity-scale-codec-sgx-test/enclave/src/bit_vec.rs:100-101 | the MSB-first bit view of a byte slice has eight bits per byte |
| BitVecTests.PackFromBytes | sgx/parity-scale-codec-sgx-test/enclave/src/bit_vec.rs:99-113 | over u8 storage, the body of the bit view of a byte slice is the slice itself |
| BitVecTests.EncodeFromBytes | sgx/parity-scale-codec-sgx-test/enclave/src/bit_vec.rs:99-113 | a byte slice encodes as its bit count followed by its own bytes |
| BitVecTests.FromBytesRoundTrip | sgx/parity-scale-codec-sgx-test/enclave/src/bit_vec.rs:99-113 | bitslice and bitbox for every byte slice: its encoding decodes over u8 to the slice's bits |
| BitVecTests.ShortSliceCase | sgx/parity-scale-codec-sgx-test/enclave/src/bit_vec.rs:99-113 | a slice of fewer than eight bytes encodes as one count byte 32 * len followed by its bytes, and decodes back |
| BitVecTests.ByteSliceBits | sgx/parity-scale-codec-sgx-test/enclave/src/bit_vec.rs:100-101 | the MSB-first view of 0x69 is 0,1,1,0,1,0,0,1 |
| BitVecTests.ByteSliceCase | sgx/parity-scale-codec-sgx-test/enclave/src/bit_vec.rs:99-105 | bitslice: the view of 0x69 encodes as [0x20, 0x69] and decodes back to the same eight bits |
| BitVecTests.BoxedSliceBits | sgx/parity-scale-codec-sgx-test/enclave/src/bit_vec.rs:108-109 | the MSB-first view of [5, 10] is 00000101 00001010 |
| BitVecTests.BoxedSliceCase | sgx/parity-scale-codec-sgx-test/enclave/src/bit_vec.rs:107-113 | bitbox: the view of [5, 10] encodes as [0x40, 5, 10] and decodes back to the same sixteen bits |
| BitVecTests.EmptyEncoding | sgx/parity-scale-codec-sgx-test/enclave/src/bit_vec.rs:18 | the empty BitVec encodes as [0x00] at every width |
| BitVecTests.SingleBitEncoding | sgx/parity-scale-codec-sgx-test/enclave/src/bit_vec.rs:20 | a single set bit over u8 encodes as [0x04, 0x80]: the bit is the most significant and the padding is zero |
| BitVecTests.NineBits | sgx/parity-scale-codec-sgx-test/enclave/src/bit_vec.rs:28 | a nine-bit fixture encodes in three bytes over u8 and over u16 |
| BitVecTests.PaddingModes | sgx/parity-scale-codec-sgx-test/enclave/src/bit_vec.rs:74 | [0x04, 0x81] over u8: strict decoding rejects the set padding bit; lenient decoding returns the single set bit |
| BitVecTests.EmptyInput | sgx/parity-scale-codec-sgx-test/enclave/src/bit_vec.rs:74 | decoding no bytes fails with TruncatedLengthPrefix |
| BitVecTests.CutTwoBytePrefix | sgx/parity-scale-codec-sgx-test/enclave/src/bit_vec.rs:74 | a two-byte prefix cut after its first byte fails with TruncatedLengthPrefix |
| BitVecTests.MissingBody | sgx/parity-scale-codec-sgx-test/enclave/src/bit_vec.rs:74 | a count of eight bits with no body fails with TruncatedBody |
| BitVecTests.OverflowingCount | sgx/parity-scale-codec-sgx-test/enclave/src/bit_vec.rs:74 | a count of usize::MAX bits fails with LengthOverflow |

## Left out

- The internals of the `bitvec` and `parity_scale_codec` crates are not part of this model.
  `Encode` and `Decode` are a reference codec for the wire format the test round trips go through,
  not a transcription of those crates.
- The ownership shapes `BitVec`, `BitSlice` and `BitBox`, and `as_bitslice`, are not modelled separately.
  All of them are a `seq<bool>`, and all of them share one wire format.
- `mem::size_of::<T>()` dispatch on the type parameter is replaced by the value `WordWidth`.
- The byte order of elements wider than a byte is taken to be little-endian.
  The bytes of elements wider than a byte are stated only under this assumed order, through `PackLayout`
  with `DecodeElementValue`, and by the empty body of `EmptyEncoding`; the round trips hold for any width.
- Compact.CompactDecode: accepts non-canonical prefixes, such as a small count in a larger size class.
  Only the truncation failure is modelled.
- Compact.CompactEncode: its own contract gives only the length bounds. The size class it picks is stated by the lemma `CompactEncodeClass`.
- BitSeqCodec.Decode: does not state that the prefix it accepted was the shortest one for the count.
- The `for` loops of `bitvec_u8` … `bitvec_u64` are a quantified lemma over the fixtures, not a loop: they update no state.
- The `assert_eq!` and `unwrap` harness, the `test_data!` and `bitvec!` macro machinery, and the enclave
  bootstrap around the module are not modelled.
  A panic of `unwrap` corresponds to an `Err` of `Decode`.
- usize arithmetic is modelled on unbounded integers.
  `Encode` takes the no-overflow bound as a precondition, and `Decode` reports `LengthOverflow` instead of overflowing.
