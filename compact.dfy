/** The SCALE compact integer: the variable-length prefix that carries the bit
    count. The two low bits of the first byte select one of four size classes:
    0b00 one byte, 0b01 two bytes, 0b10 four bytes (all little-endian, value
    shifted left by two), 0b11 a header byte whose upper six bits hold the
    number of following little-endian value bytes minus four. */
module Compact {
  import opened Binary
  import opened Errors

  /** The largest byte count the six-bit field of the big-integer header can announce. */
  const MaxValueBytes: nat := 63 + 4

  /** The fewest bytes that hold n. */
  function MinBytes(n: nat): (k: nat)
    ensures n < Pow2(8 * k)
  {
    if n == 0 then 0
    else
      Pow2Byte(8 * MinBytes(n / 256));
      1 + MinBytes(n / 256)
  }

  /** No fewer bytes than MinBytes(n) hold n. */
  lemma {:induction false} MinBytesLeast(n: nat, m: nat)
    requires n < Pow2(8 * m)
    ensures MinBytes(n) <= m
  {
    if n > 0 {
      assert m > 0;
      Pow2Byte(8 * (m - 1));
      MinBytesLeast(n / 256, m - 1);
    }
  }

  /** The values the compact encoding can represent: those that fit the
      big-integer mode's largest byte count. */
  predicate Representable(n: nat) {
    MinBytes(n) <= MaxValueBytes
  }

  /** The value bytes used by the big-integer mode: as few as hold n, and at least four. */
  function BigModeBytes(n: nat): (k: nat)
    requires Representable(n)
    ensures 4 <= k <= MaxValueBytes && n < Pow2(8 * k)
  {
    var m := MinBytes(n);
    if m < 4 then
      Pow2Monotone(8 * m, 32);
      4
    else m
  }

  /** The compact encoding of n, in the smallest size class that holds it. */
  function CompactEncode(n: nat): (out: seq<Byte>)
    requires Representable(n)
    ensures 1 <= |out| <= 1 + MaxValueBytes
  {
    if n < 0x40 then [4 * n]
    else if n < 0x4000 then LeBytes(4 * n + 1, 2)
    else if n < 0x4000_0000 then LeBytes(4 * n + 2, 4)
    else
      var k := BigModeBytes(n);
      [4 * (k - 4) + 3] + LeBytes(n, k)
  }

  /** A decoded prefix: the value and the number of bytes it took. */
  datatype Prefix = Prefix(value: nat, consumed: nat)

  /** Reads a compact integer from the front of input. */
  function CompactDecode(input: seq<Byte>): (r: Result<Prefix>)
    ensures r.Ok? ==> 1 <= r.value.consumed <= |input|
    ensures r.Err? ==> r.error == TruncatedLengthPrefix
  {
    if |input| == 0 then Err(TruncatedLengthPrefix)
    else
      var tag := input[0] % 4;
      if tag == 0 then Ok(Prefix(input[0] / 4, 1))
      else if tag == 1 then
        if |input| < 2 then Err(TruncatedLengthPrefix)
        else Ok(Prefix(LeValue(input[..2]) / 4, 2))
      else if tag == 2 then
        if |input| < 4 then Err(TruncatedLengthPrefix)
        else Ok(Prefix(LeValue(input[..4]) / 4, 4))
      else
        var k: nat := input[0] / 4 + 4;
        if |input| < 1 + k then Err(TruncatedLengthPrefix)
        else Ok(Prefix(LeValue(input[1..1 + k]), 1 + k))
  }

  /** The low two bits of a number survive taking its low byte. */
  lemma LowByteTag(x: nat)
    ensures x % 256 % 4 == x % 4
  {
    DivModUnique(x % 256, 4, (x % 256) / 4, x % 4) by {
      assert x == 256 * (x / 256) + x % 256;
      assert x % 256 == 4 * ((x % 256) / 4) + (x % 256) % 4;
      DivModUnique(x, 4, 64 * (x / 256) + (x % 256) / 4, (x % 256) % 4);
    }
  }

  lemma DecodeSingleByte(n: nat, rest: seq<Byte>)
    requires n < 0x40
    ensures CompactDecode([4 * n] + rest) == Ok(Prefix(n, 1))
  {
    assert ([4 * n] + rest)[0] == 4 * n;
  }

  lemma DecodeTwoBytes(n: nat, rest: seq<Byte>)
    requires 0x40 <= n < 0x4000
    ensures CompactDecode(LeBytes(4 * n + 1, 2) + rest) == Ok(Prefix(n, 2))
  {
    var enc := LeBytes(4 * n + 1, 2);
    var input := enc + rest;
    assert input[..2] == enc;
    Pow2Bytes();
    LeValueOfLeBytes(4 * n + 1, 2);
    LowByteTag(4 * n + 1);
    assert input[0] == (4 * n + 1) % 256;
    assert LeValue(input[..2]) == 4 * n + 1;
    assert (4 * n + 1) / 4 == n;
  }

  lemma DecodeFourBytes(n: nat, rest: seq<Byte>)
    requires 0x4000 <= n < 0x4000_0000
    ensures CompactDecode(LeBytes(4 * n + 2, 4) + rest) == Ok(Prefix(n, 4))
  {
    var enc := LeBytes(4 * n + 2, 4);
    var input := enc + rest;
    assert input[..4] == enc;
    Pow2Bytes();
    LeValueOfLeBytes(4 * n + 2, 4);
    LowByteTag(4 * n + 2);
    assert input[0] == (4 * n + 2) % 256;
    assert LeValue(input[..4]) == 4 * n + 2;
    assert (4 * n + 2) / 4 == n;
  }

  lemma DecodeBigInteger(n: nat, k: nat, rest: seq<Byte>)
    requires 4 <= k <= MaxValueBytes && n < Pow2(8 * k)
    ensures CompactDecode([4 * (k - 4) + 3] + LeBytes(n, k) + rest) == Ok(Prefix(n, 1 + k))
  {
    var input := [4 * (k - 4) + 3] + LeBytes(n, k) + rest;
    assert input[0] == 4 * (k - 4) + 3;
    assert input[1..1 + k] == LeBytes(n, k);
    LeValueOfLeBytes(n, k);
  }

  /** Decoding the encoding of n, whatever follows it, gives back n and stops
      right after the encoding. */
  lemma CompactDecodeEncode(n: nat, rest: seq<Byte>)
    requires Representable(n)
    ensures CompactDecode(CompactEncode(n) + rest) == Ok(Prefix(n, |CompactEncode(n)|))
  {
    if n < 0x40 {
      DecodeSingleByte(n, rest);
    } else if n < 0x4000 {
      DecodeTwoBytes(n, rest);
    } else if n < 0x4000_0000 {
      DecodeFourBytes(n, rest);
    } else {
      DecodeBigInteger(n, BigModeBytes(n), rest);
    }
  }

  /** CompactEncode picks the smallest size class that holds n: the tag in the
      low two bits of the first byte, and the length, for each of the four
      ranges; in the big-integer mode the header announces as few value bytes
      as hold n, and never fewer than four. */
  lemma CompactEncodeClass(n: nat)
    requires Representable(n)
    ensures var out := CompactEncode(n);
            (n < 0x40 ==> |out| == 1 && out[0] % 4 == 0)
            && (0x40 <= n < 0x4000 ==> |out| == 2 && out[0] % 4 == 1)
            && (0x4000 <= n < 0x4000_0000 ==> |out| == 4 && out[0] % 4 == 2)
            && (0x4000_0000 <= n ==>
                  |out| == 1 + BigModeBytes(n) && out[0] % 4 == 3 && out[0] / 4 + 4 == BigModeBytes(n)
                  && BigModeBytes(n) == (if MinBytes(n) < 4 then 4 else MinBytes(n)))
  {
    var out := CompactEncode(n);
    if 0x40 <= n < 0x4000 {
      LowByteTag(4 * n + 1);
      assert out[0] == (4 * n + 1) % 256;
    } else if 0x4000 <= n < 0x4000_0000 {
      LowByteTag(4 * n + 2);
      assert out[0] == (4 * n + 2) % 256;
    }
  }

  /** Every proper prefix of an encoding is reported as a truncated length prefix. */
  lemma CompactTruncated(n: nat, t: nat)
    requires Representable(n) && t < |CompactEncode(n)|
    ensures CompactDecode(CompactEncode(n)[..t]) == Err(TruncatedLengthPrefix)
  {
  }
}
