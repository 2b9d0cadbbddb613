/** Numbers as binary digits and as little-endian bytes: the two number
    representations the bit-sequence codec is built from. */
module Binary {

  /** One octet of the wire format. */
  type Byte = x: int | 0 <= x < 256

  function Pow2(n: nat): (r: nat)
    ensures r >= 1
  {
    if n == 0 then 1 else 2 * Pow2(n - 1)
  }

  lemma {:induction false} Pow2Add(a: nat, b: nat)
    ensures Pow2(a + b) == Pow2(a) * Pow2(b)
  {
    if b > 0 {
      Pow2Add(a, b - 1);
    }
  }

  lemma Pow2Monotone(a: nat, b: nat)
    requires a <= b
    ensures Pow2(a) <= Pow2(b)
  {
    Pow2Add(a, b - a);
  }

  /** Adding a byte to a width multiplies the value range by 256. */
  lemma Pow2Byte(n: nat)
    ensures Pow2(n + 8) == 256 * Pow2(n)
  {
    Pow2Add(n, 8);
  }

  /** Eight binary digits make a byte. */
  lemma Pow2Eight()
    ensures Pow2(8) == 256
  {
    Pow2Byte(0);
  }

  /** The value ranges of one, two, four and eight bytes. */
  lemma Pow2Bytes()
    ensures Pow2(8) == 0x100 && Pow2(16) == 0x1_0000 && Pow2(32) == 0x1_0000_0000
    ensures Pow2(64) == 0x1_0000_0000_0000_0000
  {
    Pow2Byte(0);
    assert Pow2(8) == 0x100;
    Pow2Byte(8);
    assert Pow2(16) == 0x1_0000;
    Pow2Byte(16);
    Pow2Byte(24);
    assert Pow2(32) == 0x1_0000_0000;
    Pow2Add(32, 32);
  }

  // ---------------------------------------------------------------------
  // Little-endian bytes
  // ---------------------------------------------------------------------

  /** The n-byte little-endian representation of x (of x modulo 256^n). */
  function LeBytes(x: nat, n: nat): (r: seq<Byte>)
    ensures |r| == n
  {
    if n == 0 then [] else [x % 256] + LeBytes(x / 256, n - 1)
  }

  /** The number that the little-endian bytes b stand for. */
  function LeValue(b: seq<Byte>): (v: nat)
    ensures v < Pow2(8 * |b|)
  {
    if b == [] then 0
    else
      Pow2Byte(8 * (|b| - 1));
      b[0] + 256 * LeValue(b[1..])
  }

  /** Writing a value that fits into n bytes and reading it back gives the value. */
  lemma {:induction false} LeValueOfLeBytes(x: nat, n: nat)
    requires x < Pow2(8 * n)
    ensures LeValue(LeBytes(x, n)) == x
  {
    if n > 0 {
      Pow2Byte(8 * (n - 1));
      LeValueOfLeBytes(x / 256, n - 1);
      assert LeBytes(x, n)[1..] == LeBytes(x / 256, n - 1);
    }
  }

  /** Reading bytes and writing the value back with as many bytes gives the bytes. */
  lemma {:induction false} LeBytesOfLeValue(b: seq<Byte>)
    ensures LeBytes(LeValue(b), |b|) == b
  {
    if b != [] {
      LeBytesOfLeValue(b[1..]);
      var v := LeValue(b);
      assert v % 256 == b[0] && v / 256 == LeValue(b[1..]);
    }
  }

  // ---------------------------------------------------------------------
  // Most-significant-bit-first binary digits
  // ---------------------------------------------------------------------

  /** The n low-order binary digits of x, most significant first. */
  function NatToBits(x: nat, n: nat): (r: seq<bool>)
    ensures |r| == n
  {
    if n == 0 then [] else NatToBits(x / 2, n - 1) + [x % 2 == 1]
  }

  /** The number whose binary digits, most significant first, are c. */
  function BitsToNat(c: seq<bool>): (v: nat)
    ensures v < Pow2(|c|)
  {
    if c == [] then 0
    else 2 * BitsToNat(c[..|c| - 1]) + (if c[|c| - 1] then 1 else 0)
  }

  /** Reading digits as a number and writing it back with as many digits gives the digits. */
  lemma {:induction false} NatToBitsOfBitsToNat(c: seq<bool>)
    ensures NatToBits(BitsToNat(c), |c|) == c
  {
    if c != [] {
      var init := c[..|c| - 1];
      NatToBitsOfBitsToNat(init);
      var v := BitsToNat(c);
      assert v / 2 == BitsToNat(init) && (v % 2 == 1) == c[|c| - 1];
      assert c == init + [c[|c| - 1]];
    }
  }

  /** Writing a value that fits into n digits and reading it back gives the value. */
  lemma {:induction false} BitsToNatOfNatToBits(x: nat, n: nat)
    requires x < Pow2(n)
    ensures BitsToNat(NatToBits(x, n)) == x
  {
    if n > 0 {
      var r := NatToBits(x, n);
      assert r[..n - 1] == NatToBits(x / 2, n - 1);
      BitsToNatOfNatToBits(x / 2, n - 1);
    }
  }

  /** The digits of a + 2^m * r, with a below 2^m, are those of r followed by
      the m digits of a. */
  lemma {:induction false} NatToBitsConcat(a: nat, m: nat, r: nat, k: nat)
    requires a < Pow2(m)
    ensures NatToBits(a + Pow2(m) * r, k + m) == NatToBits(r, k) + NatToBits(a, m)
  {
    if m > 0 {
      var q := Pow2(m - 1) * r;
      assert Pow2(m) * r == 2 * q;
      var x := a + 2 * q;
      assert x / 2 == a / 2 + q && x % 2 == a % 2;
      NatToBitsConcat(a / 2, m - 1, r, k);
    }
  }

  // ---------------------------------------------------------------------
  // Division and multiplication facts the proofs rely on
  // ---------------------------------------------------------------------

  /** A larger factor gives a product at least as large. */
  lemma MulMonotone(d: nat, a: nat, b: nat)
    requires a <= b
    ensures d * a <= d * b
  {
    assert d * b == d * a + d * (b - a);
  }

  /** A smaller product with the same factor has the smaller other factor. */
  lemma MulCancelLess(d: nat, a: nat, b: nat)
    requires d * a < d * b
    ensures a < b
  {
    assert d * (b - a) == d * b - d * a;
  }

  /** k copies of d added up: k * d as a sum, so that proofs about whole
      storage elements stay within linear arithmetic. */
  function Times(k: nat, d: nat): (r: nat)
    ensures k >= 1 ==> r >= d
  {
    if k == 0 then 0 else Times(k - 1, d) + d
  }

  lemma {:induction false} TimesIsMul(k: nat, d: nat)
    ensures Times(k, d) == k * d
  {
    if k > 0 {
      TimesIsMul(k - 1, d);
      assert k * d == (k - 1) * d + d;
    }
  }

  lemma {:induction false} TimesMonotone(a: nat, b: nat, d: nat)
    requires a <= b
    ensures Times(a, d) <= Times(b, d)
  {
    if a < b {
      TimesMonotone(a, b - 1, d);
    }
  }

  /** Division is determined by a quotient and a remainder below the divisor. */
  lemma DivModUnique(x: nat, d: nat, a: nat, r: nat)
    requires d >= 1 && r < d && x == d * a + r
    ensures x / d == a && x % d == r
  {
    var q, m := x / d, x % d;
    assert d * q + m == x;
    if q > a {
      MulMonotone(d, a + 1, q);
    } else if q < a {
      MulMonotone(d, q + 1, a);
    }
  }

  /** A multiple of d leaves no remainder. */
  lemma MulMod(d: nat, q: nat)
    requires d >= 1
    ensures (d * q) % d == 0 && (d * q) / d == q
  {
    DivModUnique(d * q, d, q, 0);
  }

  lemma DivDiv2(x: nat, p: nat)
    requires p >= 1
    ensures x / 2 / p == x / (2 * p)
  {
    var q := x / 2;
    var a, b := q / p, q % p;
    assert q == p * a + b;
    assert x == (2 * p) * a + (2 * b + x % 2);
    DivModUnique(x, 2 * p, a, 2 * b + x % 2);
  }

  /** Binary digit j of x, the digit of weight 2^j. */
  function Bit(x: nat, j: nat): bool
  {
    if j == 0 then x % 2 == 1 else Bit(x / 2, j - 1)
  }

  /** Bit agrees with the arithmetic definition of a binary digit. */
  lemma {:induction false} BitIsDigit(x: nat, j: nat)
    ensures Bit(x, j) == (x / Pow2(j) % 2 == 1)
  {
    if j > 0 {
      BitIsDigit(x / 2, j - 1);
      DivDiv2(x, Pow2(j - 1));
    }
  }

  /** Digit i of NatToBits(x, n) is the digit of weight 2^(n-1-i) of x:
      offset 0 is the most significant position. */
  lemma {:induction false} NatToBitsAt(x: nat, n: nat, i: nat)
    requires i < n
    ensures NatToBits(x, n)[i] == Bit(x, n - 1 - i)
  {
    if i < n - 1 {
      NatToBitsAt(x / 2, n - 1, i);
    }
  }
}
