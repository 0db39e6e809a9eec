/** Bytes as small integers, and the bit operations the library applies to them. */
module Bytes {
  import opened Words

  type byte = b: int | 0 <= b < 256

  type bytes = seq<byte>

  /** The exclusive or of the low `n` bits of `a` and `b`. */
  function XorBits(a: nat, b: nat, n: nat): nat
    decreases n
  {
    if n == 0 then 0
    else 2 * XorBits(a / 2, b / 2, n - 1) + (if a % 2 == b % 2 then 0 else 1)
  }

  function Pow2(n: nat): (p: nat)
    ensures p > 0
  {
    if n == 0 then 1 else 2 * Pow2(n - 1)
  }

  lemma {:induction false} XorBitsBound(a: nat, b: nat, n: nat)
    ensures XorBits(a, b, n) < Pow2(n)
    decreases n
  {
    if n > 0 {
      XorBitsBound(a / 2, b / 2, n - 1);
    }
  }

  lemma {:induction false} XorBitsTwice(a: nat, b: nat, n: nat)
    requires a < Pow2(n)
    ensures XorBits(XorBits(a, b, n), b, n) == a
    decreases n
  {
    if n > 0 {
      XorBitsTwice(a / 2, b / 2, n - 1);
      var x := XorBits(a, b, n);
      assert x / 2 == XorBits(a / 2, b / 2, n - 1);
    }
  }

  /** Bit `j` of a number. */
  function Bit(x: nat, j: nat): nat {
    if j == 0 then x % 2 else Bit(x / 2, j - 1)
  }

  lemma {:induction false} BitIsQuotient(x: nat, j: nat)
    ensures Bit(x, j) == x / Pow2(j) % 2
    decreases j
  {
    if j > 0 {
      BitIsQuotient(x / 2, j - 1);
      HalfThen(x, Pow2(j - 1));
    }
  }

  /** The remainder modulo a power of two keeps the low bits. */
  lemma {:induction false} LowBits(x: nat, n: nat, j: nat)
    requires j < n
    ensures Bit(x % Pow2(n), j) == Bit(x, j)
    decreases j
  {
    HalfOfRemainder(x, Pow2(n - 1));
    if j > 0 {
      LowBits(x / 2, n - 1, j - 1);
    }
  }

  lemma HalfOfRemainder(x: nat, m: nat)
    requires m > 0
    ensures x % (2 * m) / 2 == x / 2 % m && x % (2 * m) % 2 == x % 2
  {
    var q, r := x / (2 * m), x % (2 * m);
    assert x == 2 * (q * m) + r;
    assert x / 2 == q * m + r / 2;
    QuotientUnique(x / 2, m, q, r / 2);
  }

  lemma HalfThen(x: nat, m: nat)
    requires m > 0
    ensures x / 2 / m == x / (2 * m)
  {
    var q, r := x / 2 / m, x / 2 % m;
    assert x == q * (2 * m) + (2 * r + x % 2);
    assert 2 * r + x % 2 < 2 * m;
    QuotientUnique(x, 2 * m, q, 2 * r + x % 2);
  }

  lemma {:induction false} BitOfXor(a: nat, b: nat, n: nat, j: nat)
    requires j < n
    ensures Bit(XorBits(a, b, n), j) == 0 <==> Bit(a, j) == Bit(b, j)
    decreases n
  {
    var x := XorBits(a, b, n);
    assert x / 2 == XorBits(a / 2, b / 2, n - 1);
    if j > 0 {
      BitOfXor(a / 2, b / 2, n - 1, j - 1);
    }
  }

  /** `a ^ b` on `uint8_t`. */
  function Xor(a: byte, b: byte): byte
  {
    assert Pow2(8) == 256 by { Pow2Of8(); }
    XorBitsBound(a, b, 8);
    XorBits(a, b, 8)
  }

  lemma Pow2Of8()
    ensures Pow2(8) == 256
  {
  }

  lemma XorTwice(a: byte, b: byte)
    ensures Xor(Xor(a, b), b) == a
  {
    Pow2Of8();
    XorBitsTwice(a, b, 8);
  }

  /** The exclusive or, bit by bit. */
  lemma XorIsExclusive(a: byte, b: byte)
    ensures forall j | 0 <= j < 8 :: Bit(Xor(a, b), j) == 0 <==> Bit(a, j) == Bit(b, j)
  {
    forall j | 0 <= j < 8
      ensures Bit(Xor(a, b), j) == 0 <==> Bit(a, j) == Bit(b, j)
    {
      BitOfXor(a, b, 8, j);
    }
  }

  /** `b & m` on `uint8_t`. */
  function And(b: byte, m: byte): byte
  {
    ((b as bv8) & (m as bv8)) as int
  }

  /** The bit tests of the UTF-8 and frame-header code, as ranges. */
  lemma MaskRanges(b: byte)
    ensures And(b, 0x80) == 0 <==> b < 0x80
    ensures And(b, 0xE0) == 0xC0 <==> 0xC0 <= b < 0xE0
    ensures And(b, 0xE0) == 0x80 <==> 0x80 <= b < 0xA0
    ensures And(b, 0xE0) == 0xA0 <==> 0xA0 <= b < 0xC0
    ensures And(b, 0xF0) == 0xE0 <==> 0xE0 <= b < 0xF0
    ensures And(b, 0xF0) == 0x80 <==> 0x80 <= b < 0x90
    ensures And(b, 0xF8) == 0xF0 <==> 0xF0 <= b < 0xF8
    ensures And(b, 0xC0) == 0x80 <==> 0x80 <= b < 0xC0
  {
  }

  // ---- Big-endian numbers ----

  /** The number that big-endian `s` denotes. */
  function Number(s: bytes): nat {
    if s == [] then 0 else 256 * Number(s[..|s| - 1]) + s[|s| - 1]
  }

  lemma NumberOfTwo(s: bytes)
    requires |s| == 2
    ensures Number(s) == s[0] as nat * 256 + s[1]
  {
    assert Number(s[..1]) == 256 * Number(s[..1][..0]) + s[0];
  }

  lemma NumberSnoc(s: bytes, k: nat)
    requires k < |s|
    ensures Number(s[..k + 1]) == Number(s[..k]) * 256 + s[k]
    ensures Number(s[..0]) == 0
  {
    assert s[..k + 1][..k] == s[..k];
  }

  lemma NumberOfEight(s: bytes)
    requires |s| == 8
    ensures Number(s)
         == s[0] as nat * 0x100_0000_0000_0000 + s[1] as nat * 0x1_0000_0000_0000 + s[2] as nat * 0x100_0000_0000
            + s[3] as nat * 0x1_0000_0000 + s[4] as nat * 0x100_0000 + s[5] as nat * 0x1_0000
            + s[6] as nat * 0x100 + s[7]
  {
    hide Number;
    NumberSnoc(s, 0);
    NumberSnoc(s, 1);
    NumberSnoc(s, 2);
    NumberSnoc(s, 3);
    NumberSnoc(s, 4);
    NumberSnoc(s, 5);
    NumberSnoc(s, 6);
    NumberSnoc(s, 7);
    assert s[..8] == s;
  }

  /** `n` as `k` big-endian bytes. */
  function BigEndian(n: nat, k: nat): (s: bytes)
    ensures |s| == k
  {
    if k == 0 then [] else BigEndian(n / 256, k - 1) + [n % 256]
  }

  function Pow256(k: nat): nat {
    if k == 0 then 1 else 256 * Pow256(k - 1)
  }

  lemma {:induction false} NumberOfBigEndian(n: nat, k: nat)
    requires n < Pow256(k)
    ensures Number(BigEndian(n, k)) == n
    decreases k
  {
    if k > 0 {
      NumberOfBigEndian(n / 256, k - 1);
      assert BigEndian(n, k)[..k - 1] == BigEndian(n / 256, k - 1);
    }
  }

  lemma Pow256Values()
    ensures Pow256(2) == 0x1_0000 && Pow256(8) == TWO_64
  {
  }

  /** `n >> (8 * i)` */
  function Shifted(n: nat, i: nat): nat {
    if i == 0 then n else Shifted(n, i - 1) / 256
  }

  lemma {:induction false} ShiftedTwice(n: nat, i: nat)
    ensures Shifted(n / 256, i) == Shifted(n, i + 1)
    decreases i
  {
    if i > 0 {
      ShiftedTwice(n, i - 1);
    }
  }

  /** The bytes of a number are its shifts, cut to a byte. */
  lemma {:induction false} BigEndianAt(n: nat, k: nat, i: nat)
    requires i < k
    ensures BigEndian(n, k)[k - 1 - i] == Shifted(n, i) % 256
    decreases k
  {
    if i > 0 {
      BigEndianAt(n / 256, k - 1, i - 1);
      ShiftedTwice(n, i - 1);
    }
  }
}
