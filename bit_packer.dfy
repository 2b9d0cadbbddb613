/** Packing a bit sequence into storage elements, MSB-first (bitvec's Msb0
    order), and reading it back. Bit k * w + o of the sequence goes to element
    k at offset o, where offset 0 is the element's most significant bit; the
    bits of the last element past the length are zero. Each element is written
    as its little-endian bytes. */
module BitPacker {
  import opened Binary
  import opened Errors
  import opened Footprint

  /** Whether decoding rejects set storage bits past the length. */
  datatype Mode = Lenient | Strict

  function Zeros(n: nat): (z: seq<bool>)
    ensures |z| == n && forall i :: 0 <= i < n ==> !z[i]
  {
    seq(n, _ => false)
  }

  predicate AllZero(s: seq<bool>) {
    forall i :: 0 <= i < |s| ==> !s[i]
  }

  /** len is a whole number of runs of d. */
  predicate WholeElements(len: nat, d: nat)
    requires d >= 1
  {
    len == 0 || (len >= d && WholeElements(len - d, d))
  }

  lemma {:induction false} WholeElementsOfTimes(k: nat, d: nat)
    requires d >= 1
    ensures WholeElements(Times(k, d), d)
  {
    if k > 0 {
      WholeElementsOfTimes(k - 1, d);
    }
  }

  /** A whole number of runs of d is a whole number of runs of 8 * d once
      every unit is widened to eight. */
  lemma {:induction false} WholeElementsScale(len: nat, d: nat)
    requires d >= 1 && WholeElements(len, d)
    ensures WholeElements(8 * len, 8 * d)
  {
    if len > 0 {
      WholeElementsScale(len - d, d);
    }
  }

  /** The number of padding bits in the last element of a sequence of len bits:
      fewer than one element. */
  function PaddingBits(len: nat, width: WordWidth): (pad: nat)
    ensures len + pad == 8 * RequiredBytes(len, width)
    ensures pad < width.Bits()
  {
    8 * RequiredBytes(len, width) - len
  }

  // ---------------------------------------------------------------------
  // One element
  // ---------------------------------------------------------------------

  /** One element of size bytes holding the bits c, most significant first,
      written as its little-endian bytes: the first byte holds the last eight
      bits. */
  function EncodeElement(c: seq<bool>, size: nat): (b: seq<Byte>)
    requires |c| == 8 * size
    ensures |b| == size
  {
    if size == 0 then []
    else
      Pow2Eight();
      [BitsToNat(c[8 * (size - 1)..])] + EncodeElement(c[..8 * (size - 1)], size - 1)
  }

  /** The bits of the element whose little-endian bytes are b, most significant
      first: the bits of the later bytes, then the eight bits of the first. */
  function DecodeElement(b: seq<Byte>): (c: seq<bool>)
    ensures |c| == 8 * |b|
  {
    if b == [] then [] else DecodeElement(b[1..]) + NatToBits(b[0], 8)
  }

  lemma {:induction false} DecodeEncodeElement(c: seq<bool>, size: nat)
    requires |c| == 8 * size
    ensures DecodeElement(EncodeElement(c, size)) == c
  {
    if size > 0 {
      DecodeEncodeElement(c[..8 * (size - 1)], size - 1);
      DecodeEncodeElementStep(c, size);
    }
  }

  lemma DecodeEncodeElementStep(c: seq<bool>, size: nat)
    requires |c| == 8 * size && size > 0
    requires DecodeElement(EncodeElement(c[..8 * (size - 1)], size - 1)) == c[..8 * (size - 1)]
    ensures DecodeElement(EncodeElement(c, size)) == c
  {
    var k := 8 * (size - 1);
    var b := EncodeElement(c, size);
    assert b[1..] == EncodeElement(c[..k], size - 1);
    NatToBitsOfBitsToNat(c[k..]);
    SplitEqual(DecodeElement(b), c, k);
  }

  lemma {:induction false} EncodeDecodeElement(b: seq<Byte>)
    ensures EncodeElement(DecodeElement(b), |b|) == b
  {
    if b != [] {
      var c, k := DecodeElement(b), 8 * (|b| - 1);
      assert c[k..] == NatToBits(b[0], 8);
      assert c[..k] == DecodeElement(b[1..]);
      Pow2Eight();
      BitsToNatOfNatToBits(b[0], 8);
      EncodeDecodeElement(b[1..]);
      assert b == [b[0]] + b[1..];
    }
  }

  /** The bits of an element are the binary digits of its little-endian value. */
  lemma {:induction false} DecodeElementValue(b: seq<Byte>)
    ensures DecodeElement(b) == NatToBits(LeValue(b), 8 * |b|)
  {
    if b != [] {
      DecodeElementValue(b[1..]);
      Pow2Eight();
      NatToBitsConcat(b[0], 8, LeValue(b[1..]), 8 * (|b| - 1));
    }
  }

  // ---------------------------------------------------------------------
  // Whole runs of elements
  // ---------------------------------------------------------------------

  /** Writes whole elements of size bytes: each run of 8 * size bits becomes one element. */
  function PackWords(p: seq<bool>, size: nat): (body: seq<Byte>)
    requires size >= 1 && WholeElements(|p|, 8 * size)
    ensures 8 * |body| == |p| && WholeElements(|body|, size)
    decreases |p|
  {
    if |p| == 0 then []
    else EncodeElement(p[..8 * size], size) + PackWords(p[8 * size..], size)
  }

  /** Every storage bit of a body of whole elements of size bytes, element by
      element, each element most significant bit first. */
  function WordBits(body: seq<Byte>, size: nat): (all: seq<bool>)
    requires size >= 1 && WholeElements(|body|, size)
    ensures |all| == 8 * |body| && WholeElements(|all|, 8 * size)
    decreases |body|
  {
    if |body| == 0 then []
    else DecodeElement(body[..size]) + WordBits(body[size..], size)
  }

  /** The first element of a packed run is the first 8 * size bits, encoded;
      the rest is the packing of the remaining bits. */
  lemma PackWordsSplit(p: seq<bool>, size: nat)
    requires size >= 1 && WholeElements(|p|, 8 * size) && |p| > 0
    ensures PackWords(p, size)[..size] == EncodeElement(p[..8 * size], size)
    ensures PackWords(p, size)[size..] == PackWords(p[8 * size..], size)
  {
  }

  /** The first 8 * size storage bits are those of the first element; the rest
      are the storage bits of the remaining elements. */
  lemma WordBitsSplit(body: seq<Byte>, size: nat)
    requires size >= 1 && WholeElements(|body|, size) && |body| > 0
    ensures WordBits(body, size)[..8 * size] == DecodeElement(body[..size])
    ensures WordBits(body, size)[8 * size..] == WordBits(body[size..], size)
  {
  }

  /** Two sequences of one length are equal when they agree before and after k. */
  lemma SplitEqual<T>(s: seq<T>, t: seq<T>, k: nat)
    requires |s| == |t| && k <= |s| && s[..k] == t[..k] && s[k..] == t[k..]
    ensures s == t
  {
    assert s == s[..k] + s[k..];
    assert t == t[..k] + t[k..];
  }

  /** Reading back what PackWords wrote gives every bit, padding included. */
  lemma {:induction false} WordBitsOfPackWords(p: seq<bool>, size: nat)
    requires size >= 1 && WholeElements(|p|, 8 * size)
    ensures WordBits(PackWords(p, size), size) == p
    decreases |p|
  {
    if |p| > 0 {
      WordBitsOfPackWords(p[8 * size..], size);
      WordBitsOfPackWordsStep(p, size);
    }
  }

  lemma WordBitsOfPackWordsStep(p: seq<bool>, size: nat)
    requires size >= 1 && WholeElements(|p|, 8 * size) && |p| > 0
    requires WordBits(PackWords(p[8 * size..], size), size) == p[8 * size..]
    ensures WordBits(PackWords(p, size), size) == p
  {
    var body := PackWords(p, size);
    var all := WordBits(body, size);
    PackWordsSplit(p, size);
    WordBitsSplit(body, size);
    DecodeEncodeElement(p[..8 * size], size);
    SplitEqual(all, p, 8 * size);
  }

  /** Packing every storage bit of a body gives back the body, byte for byte. */
  lemma {:induction false} PackWordsOfWordBits(body: seq<Byte>, size: nat)
    requires size >= 1 && WholeElements(|body|, size)
    ensures PackWords(WordBits(body, size), size) == body
    decreases |body|
  {
    if |body| > 0 {
      PackWordsOfWordBits(body[size..], size);
      PackWordsOfWordBitsStep(body, size);
    }
  }

  lemma PackWordsOfWordBitsStep(body: seq<Byte>, size: nat)
    requires size >= 1 && WholeElements(|body|, size) && |body| > 0
    requires PackWords(WordBits(body[size..], size), size) == body[size..]
    ensures PackWords(WordBits(body, size), size) == body
  {
    var all := WordBits(body, size);
    var packed := PackWords(all, size);
    WordBitsSplit(body, size);
    PackWordsSplit(all, size);
    EncodeDecodeElement(body[..size]);
    SplitEqual(packed, body, size);
  }

  // ---------------------------------------------------------------------
  // Pack and Unpack
  // ---------------------------------------------------------------------

  /** A body of the length RequiredBytes(len, width) is a whole number of elements. */
  lemma RequiredBytesWholeElements(len: nat, width: WordWidth)
    ensures WholeElements(RequiredBytes(len, width), width.Size())
  {
    var n := RequiredElements(len, width);
    TimesIsMul(n, width.Size());
    WholeElementsOfTimes(n, width.Size());
  }

  /** The bits followed by zero padding up to a whole element. */
  function Padded(bits: seq<bool>, width: WordWidth): (p: seq<bool>)
    ensures |p| == 8 * RequiredBytes(|bits|, width)
    ensures WholeElements(|p|, 8 * width.Size())
  {
    RequiredBytesWholeElements(|bits|, width);
    WholeElementsScale(RequiredBytes(|bits|, width), width.Size());
    bits + Zeros(PaddingBits(|bits|, width))
  }

  /** The storage of bits: the bits and zero padding, packed into elements. */
  function Pack(bits: seq<bool>, width: WordWidth): (body: seq<Byte>)
    ensures |body| == RequiredBytes(|bits|, width)
  {
    PackWords(Padded(bits, width), width.Size())
  }

  /** Reads len bits back from a body; the body must have exactly the length
      RequiredBytes(len, width). */
  function Unpack(body: seq<Byte>, len: nat, width: WordWidth, mode: Mode): (r: Result<seq<bool>>)
    ensures r.Ok? ==> |r.value| == len
    ensures r.Err? ==> r.error == TruncatedBody || (r.error == NonZeroPadding && mode == Strict)
  {
    if |body| != RequiredBytes(len, width) then Err(TruncatedBody)
    else
      RequiredBytesWholeElements(len, width);
      var all := WordBits(body, width.Size());
      if mode == Strict && !AllZero(all[len..]) then Err(NonZeroPadding)
      else Ok(all[..len])
  }

  /** The storage Pack writes holds the bits followed by zero padding bits only. */
  lemma PackPaddingIsZero(bits: seq<bool>, width: WordWidth)
    ensures WholeElements(|Pack(bits, width)|, width.Size())
    ensures WordBits(Pack(bits, width), width.Size()) == bits + Zeros(PaddingBits(|bits|, width))
  {
    WordBitsOfPackWords(Padded(bits, width), width.Size());
  }

  /** Unpacking a packed body gives back the bits, in either mode. */
  lemma UnpackPack(bits: seq<bool>, width: WordWidth, mode: Mode)
    ensures Unpack(Pack(bits, width), |bits|, width, mode) == Ok(bits)
  {
    PackPaddingIsZero(bits, width);
    var all := WordBits(Pack(bits, width), width.Size());
    assert all[..|bits|] == bits;
    assert all[|bits|..] == Zeros(PaddingBits(|bits|, width));
  }

  /** A successful Unpack has checked the body's length and returns its first len storage bits. */
  lemma UnpackOk(body: seq<Byte>, len: nat, width: WordWidth, mode: Mode, bits: seq<bool>)
    requires Unpack(body, len, width, mode) == Ok(bits)
    ensures |body| == RequiredBytes(len, width) && WholeElements(|body|, width.Size())
    ensures bits == WordBits(body, width.Size())[..len]
  {
    RequiredBytesWholeElements(len, width);
  }

  /** A successful strict Unpack has checked that every storage bit past len is zero. */
  lemma StrictUnpackOk(body: seq<Byte>, len: nat, width: WordWidth, bits: seq<bool>)
    requires Unpack(body, len, width, Strict) == Ok(bits)
    ensures WholeElements(|body|, width.Size())
    ensures AllZero(WordBits(body, width.Size())[len..])
  {
    RequiredBytesWholeElements(len, width);
  }

  /** Storage bits whose bits past len are all zero are the first len bits, padded. */
  lemma PaddedOfSplit(all: seq<bool>, len: nat, width: WordWidth)
    requires |all| == 8 * RequiredBytes(len, width) && AllZero(all[len..])
    ensures all == Padded(all[..len], width)
  {
    assert all[len..] == Zeros(|all| - len);
    assert all == all[..len] + all[len..];
  }

  /** A body that strict unpacking accepts holds the bits read and zero padding. */
  lemma StrictUnpackPadded(body: seq<Byte>, len: nat, width: WordWidth, bits: seq<bool>)
    requires Unpack(body, len, width, Strict) == Ok(bits)
    ensures WholeElements(|body|, width.Size())
    ensures WordBits(body, width.Size()) == Padded(bits, width)
  {
    UnpackOk(body, len, width, Strict, bits);
    StrictUnpackOk(body, len, width, bits);
    PaddedOfSplit(WordBits(body, width.Size()), len, width);
  }

  /** Strict unpacking accepts only the body Pack writes, so Pack and strict
      Unpack are inverse bijections between the sequences of one length and
      their canonical bodies. */
  lemma StrictUnpackCanonical(body: seq<Byte>, len: nat, width: WordWidth, bits: seq<bool>)
    requires Unpack(body, len, width, Strict) == Ok(bits)
    ensures Pack(bits, width) == body
  {
    StrictUnpackPadded(body, len, width, bits);
    PackWordsOfWordBits(body, width.Size());
  }

  /** Lenient unpacking fails only on a body of the wrong length, and reads the
      same bits as strict unpacking wherever strict unpacking succeeds. */
  lemma LenientUnpack(body: seq<Byte>, len: nat, width: WordWidth)
    ensures Unpack(body, len, width, Lenient).Err? <==> |body| != RequiredBytes(len, width)
    ensures Unpack(body, len, width, Strict).Ok? ==>
              Unpack(body, len, width, Lenient) == Unpack(body, len, width, Strict)
  {
  }

  // ---------------------------------------------------------------------
  // The Msb0 layout
  // ---------------------------------------------------------------------

  /** The size bytes of element k of body. */
  function ElementBytes(body: seq<Byte>, size: nat, k: nat): (b: seq<Byte>)
    requires Times(k + 1, size) <= |body|
    ensures |b| == size
  {
    body[Times(k, size) .. Times(k, size) + size]
  }

  /** The value of element k of body: its bytes read little-endian. */
  function Element(body: seq<Byte>, size: nat, k: nat): (v: nat)
    requires Times(k + 1, size) <= |body|
    ensures v < Pow2(8 * size)
  {
    LeValue(ElementBytes(body, size, k))
  }

  lemma ElementBytesShift(body: seq<Byte>, size: nat, k: nat)
    requires Times(k + 2, size) <= |body|
    ensures ElementBytes(body[size..], size, k) == ElementBytes(body, size, k + 1)
  {
  }

  /** The first 8 * size storage bits are those of the first element. */
  lemma WordBitsHead(body: seq<Byte>, size: nat, o: nat)
    requires size >= 1 && WholeElements(|body|, size) && size <= |body| && o < 8 * size
    ensures WordBits(body, size)[o] == DecodeElement(body[..size])[o]
  {
  }

  /** The storage bits past the first element are those of the remaining elements. */
  lemma WordBitsTail(body: seq<Byte>, size: nat, j: nat)
    requires size >= 1 && WholeElements(|body|, size) && size <= |body| && j < 8 * (|body| - size)
    ensures WordBits(body, size)[j + 8 * size] == WordBits(body[size..], size)[j]
  {
  }

  /** WordBits reads offset o of element k of body at position k * w + o. */
  lemma {:induction false} WordBitsElement(body: seq<Byte>, size: nat, k: nat, o: nat)
    requires size >= 1 && WholeElements(|body|, size)
    requires Times(k + 1, size) <= |body| && o < 8 * size
    ensures Times(k, 8 * size) + o < 8 * |body|
    ensures WordBits(body, size)[Times(k, 8 * size) + o] == DecodeElement(ElementBytes(body, size, k))[o]
    decreases k, 1
  {
    if k == 0 {
      WordBitsHead(body, size, o);
      assert ElementBytes(body, size, 0) == body[..size];
    } else {
      WordBitsLaterElement(body, size, k, o);
    }
  }

  /** The inductive step of WordBitsElement: element k of body is element
      k - 1 of the body without its first element. */
  lemma {:induction false} WordBitsLaterElement(body: seq<Byte>, size: nat, k: nat, o: nat)
    requires size >= 1 && WholeElements(|body|, size) && k >= 1
    requires Times(k + 1, size) <= |body| && o < 8 * size
    ensures Times(k, 8 * size) + o < 8 * |body|
    ensures WordBits(body, size)[Times(k, 8 * size) + o] == DecodeElement(ElementBytes(body, size, k))[o]
    decreases k, 0
  {
    WordBitsElement(body[size..], size, k - 1, o);
    ElementBytesShift(body, size, k - 1);
    var j := Times(k - 1, 8 * size) + o;
    assert Times(k, 8 * size) + o == j + 8 * size;
    WordBitsTail(body, size, j);
  }

  /** Bit i of a sequence padded with zeros is the sequence's bit i, or zero past its end. */
  lemma PaddedAt(bits: seq<bool>, pad: nat, i: nat)
    requires i < |bits| + pad
    ensures (bits + Zeros(pad))[i] == (i < |bits| && bits[i])
  {
  }

  /** Every element below RequiredElements lies within the storage. */
  lemma ElementInStorage(len: nat, width: WordWidth, k: nat)
    requires k < RequiredElements(len, width)
    ensures Times(k + 1, width.Size()) <= RequiredBytes(len, width)
  {
    var n := RequiredElements(len, width);
    TimesMonotone(k + 1, n, width.Size());
    TimesIsMul(n, width.Size());
  }

  /** Storage bit k * w + o is the bit of weight 2^(w - 1 - o) of element k. */
  lemma WordBitsWeight(body: seq<Byte>, size: nat, k: nat, o: nat)
    requires size >= 1 && WholeElements(|body|, size)
    requires Times(k + 1, size) <= |body| && o < 8 * size
    ensures Times(k, 8 * size) == k * (8 * size)
    ensures Times(k, 8 * size) + o < 8 * |body|
    ensures WordBits(body, size)[Times(k, 8 * size) + o] == Bit(Element(body, size, k), 8 * size - 1 - o)
  {
    TimesIsMul(k, 8 * size);
    WordBitsElement(body, size, k, o);
    DecodeElementValue(ElementBytes(body, size, k));
    NatToBitsAt(Element(body, size, k), 8 * size, o);
  }

  /** In storage holding bits followed by zero padding, the bit of weight
      2^(w - 1 - o) of element k is sequence bit k * w + o, or zero past the bits. */
  lemma PaddedStorageBit(body: seq<Byte>, size: nat, w: nat, bits: seq<bool>, pad: nat, k: nat, o: nat)
    requires size >= 1 && w == 8 * size && WholeElements(|body|, size)
    requires WordBits(body, size) == bits + Zeros(pad)
    requires Times(k + 1, size) <= |body| && o < w
    ensures var i := Times(k, w) + o;
            Bit(Element(body, size, k), w - 1 - o) == (i < |bits| && bits[i])
  {
    WordBitsWeight(body, size, k, o);
    PaddedAt(bits, pad, Times(k, w) + o);
  }

  /** Pack stores bit k * w + o of the sequence in element k
      at offset o, that is, as the bit of weight 2^(w - 1 - o) of the element's
      value; every padding position holds zero. */
  lemma PackLayout(bits: seq<bool>, width: WordWidth, k: nat, o: nat)
    requires k < RequiredElements(|bits|, width) && o < width.Bits()
    ensures Times(k + 1, width.Size()) <= |Pack(bits, width)|
    ensures Times(k, width.Bits()) == k * width.Bits()
    ensures var i := Times(k, width.Bits()) + o;
            Bit(Element(Pack(bits, width), width.Size(), k), width.Bits() - 1 - o) == (i < |bits| && bits[i])
  {
    ElementInStorage(|bits|, width, k);
    TimesIsMul(k, width.Bits());
    PackPaddingIsZero(bits, width);
    PaddedStorageBit(Pack(bits, width), width.Size(), width.Bits(), bits, PaddingBits(|bits|, width), k, o);
  }
}
