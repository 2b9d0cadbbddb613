/** Storage elements and the number of bytes a bit sequence occupies in them. */
module Footprint {
  import opened Binary

  /** The storage element type T of BitVec<Msb0, T>: u8, u16, u32 or u64. */
  datatype WordWidth = W8 | W16 | W32 | W64 {

    /** size_of::<T>(), in bytes. */
    function Size(): (n: nat)
      ensures n >= 1
    {
      match this
      case W8 => 1
      case W16 => 2
      case W32 => 4
      case W64 => 8
    }

    /** The number of bits in one element. */
    function Bits(): (n: nat)
      ensures n == 8 * Size()
    {
      Size() * 8
    }
  }

  /** usize::MAX on the 64-bit target the enclave is built for. */
  const USIZE_MAX: nat := 0xFFFF_FFFF_FFFF_FFFF

  /** The number of elements needed to hold `bits` bits: the least number of
      elements whose bits are at least `bits`. */
  function RequiredElements(bits: nat, width: WordWidth): (n: nat)
    ensures bits <= n * width.Bits() < bits + width.Bits()
  {
    var elementBits := width.Size() * 8;
    var x := bits + elementBits - 1;
    assert elementBits * (x / elementBits) + x % elementBits == x;
    x / elementBits
  }

  /** The bytes needed to store `bits` bits in an array of `width` elements:
      enough for the bits, and less than one element more than the bits need. */
  function RequiredBytes(bits: nat, width: WordWidth): (r: nat)
    ensures bits <= 8 * r < bits + width.Bits()
  {
    RequiredElements(bits, width) * width.Size()
  }

  /** required_bytes is a whole number of elements. */
  lemma RequiredBytesWhole(bits: nat, width: WordWidth)
    ensures RequiredBytes(bits, width) % width.Size() == 0
  {
    MulMod(width.Size(), RequiredElements(bits, width));
  }

  /** No whole number of elements that holds the bits is smaller. */
  lemma RequiredBytesLeast(bits: nat, width: WordWidth, k: nat)
    requires bits <= 8 * (k * width.Size())
    ensures RequiredBytes(bits, width) <= k * width.Size()
  {
    var s, n := width.Size(), RequiredElements(bits, width);
    // 8 * n * s < bits + 8 * s <= 8 * k * s + 8 * s, so n < k + 1
    if n > k {
      MulMonotone(s, k + 1, n);
    }
  }

  /** required_bytes is non-decreasing in the bit count. */
  lemma RequiredBytesMonotone(a: nat, b: nat, width: WordWidth)
    requires a <= b
    ensures RequiredBytes(a, width) <= RequiredBytes(b, width)
  {
    RequiredBytesLeast(a, width, RequiredElements(b, width));
  }

  /** No bits need no storage. */
  lemma RequiredBytesZero(width: WordWidth)
    ensures RequiredBytes(0, width) == 0
  {
    RequiredBytesLeast(0, width, 0);
  }

  /** Between one bit and a full element, exactly one element is used. */
  lemma RequiredBytesOneElement(bits: nat, width: WordWidth)
    requires 1 <= bits <= width.Bits()
    ensures RequiredBytes(bits, width) == width.Size()
  {
    RequiredBytesLeast(bits, width, 1);
  }

  /** An exact multiple of the element width gets no padding element. */
  lemma RequiredBytesExact(k: nat, width: WordWidth)
    ensures RequiredBytes(k * width.Bits(), width) == k * width.Size()
  {
    var s := width.Size();
    assert k * width.Bits() == 8 * (k * s) by { assert width.Bits() == 8 * s; }
    RequiredBytesLeast(k * width.Bits(), width, k);
  }

  /** One bit past a multiple of the element width costs a whole further element. */
  lemma RequiredBytesOneMore(k: nat, width: WordWidth)
    ensures RequiredBytes(k * width.Bits() + 1, width) == (k + 1) * width.Size()
  {
    var s, bits := width.Size(), k * width.Bits() + 1;
    var n := RequiredElements(bits, width);
    assert k * width.Bits() == 8 * (k * s) by { assert width.Bits() == 8 * s; }
    assert (k + 1) * s == k * s + s;
    RequiredBytesLeast(bits, width, k + 1);
    MulCancelLess(s, k, n);
    MulMonotone(s, k + 1, n);
  }
}
