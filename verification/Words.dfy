/** The machine words of the library, and division. */
module Words {

  const TWO_64: nat := 0x1_0000_0000_0000_0000

  type uint64 = x: int | 0 <= x < TWO_64

  /** A number below 256 as eight bits, and back. */
  lemma ByteAsBits(b: int)
    requires 0 <= b < 256
    ensures (b as bv8) as int == b
  {
    assert b % 256 == b;
  }

  lemma NoMultipleWithin(k: int, n: int)
    requires n > 0 && -n < k * n < n
    ensures k == 0
  {
  }

  lemma QuotientUnique(x: int, n: int, q: int, r: int)
    requires n > 0 && 0 <= r < n && x == q * n + r
    ensures x / n == q && x % n == r
  {
    var d := x / n - q;
    assert d * n == r - x % n;
    NoMultipleWithin(d, n);
  }
}
