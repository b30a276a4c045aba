/**
 32-bit machine arithmetic.  A `Word` is the unsigned reading of a 32-bit pattern;
 `Signed` is the reading a C `int` gives to the same pattern.
 */
module Words {
  const TWO31: int := 0x8000_0000
  const TWO32: int := 0x1_0000_0000
  const TWO64: int := 0x1_0000_0000_0000_0000

  type Word = x: int | 0 <= x < 0x1_0000_0000
  type Byte = x: int | 0 <= x < 256

  /** The 32-bit pattern of an integer, as wrapping arithmetic leaves it. */
  function Wrap(n: int): Word {
    n % 0x1_0000_0000
  }

  function Signed(w: Word): int {
    if w < TWO31 then w as int else w - TWO32
  }

  predicate IsInt32(n: int) {
    -TWO31 <= n < TWO31
  }

  /** The word whose bytes, least significant first, are `b0..b3`. */
  function FromBytes(b0: Byte, b1: Byte, b2: Byte, b3: Byte): Word {
    b0 + 0x100 * b1 + 0x1_0000 * b2 + 0x100_0000 * b3
  }

  /** Byte `k` of a word; byte 0 is the least significant. */
  function ByteOf(w: Word, k: int): Byte
    requires 0 <= k < 4
  {
    if k == 0 then w % 0x100
    else if k == 1 then w / 0x100 % 0x100
    else if k == 2 then w / 0x100 / 0x100 % 0x100
    else w / 0x100 / 0x100 / 0x100
  }

  lemma BytesOfWord(w: Word)
    ensures FromBytes(ByteOf(w, 0), ByteOf(w, 1), ByteOf(w, 2), ByteOf(w, 3)) == w
  {
  }

  lemma BytesOfFromBytes(b0: Byte, b1: Byte, b2: Byte, b3: Byte)
    ensures var w := FromBytes(b0, b1, b2, b3);
            ByteOf(w, 0) == b0 && ByteOf(w, 1) == b1 && ByteOf(w, 2) == b2 && ByteOf(w, 3) == b3
  {
    var h := b2 + 0x100 * b3;
    QuotientIs(FromBytes(b0, b1, b2, b3), 0x100, b1 + 0x100 * h, b0);
    QuotientIs(b1 + 0x100 * h, 0x100, h, b1);
    QuotientIs(h, 0x100, b3, b2);
  }

  /** Quotient and remainder are known by a witness. */
  lemma QuotientIs(n: int, d: int, q: int, r: int)
    requires d > 0 && 0 <= r < d && n == q * d + r
    ensures n / d == q && n % d == r
  {
    var e := n / d - q;
    assert e * d == r - n % d;
    assert e >= 1 ==> e * d >= d;
    assert e <= -1 ==> e * d <= -d;
  }

  lemma SignedWrap(n: int)
    requires IsInt32(n)
    ensures Signed(Wrap(n)) == n
  {
    if n < 0 { QuotientIs(n, TWO32, -1, n + TWO32); } else { QuotientIs(n, TWO32, 0, n); }
  }

  /** Wrapping a part of a sum first makes no difference. */
  lemma WrapAdd(x: int, y: int)
    ensures Wrap(x + Wrap(y)) == Wrap(x + y)
  {
    var q := y / TWO32;
    var s := x + Wrap(y);
    QuotientIs(x + y, TWO32, q + s / TWO32, s % TWO32);
  }

  /** How many units of size `s` hold `n`. */
  function DivRoundUp(n: int, s: int): int
    requires s > 0
  { n / s + if n % s > 0 then 1 else 0 }

  function Pow2(k: nat): (p: int)
    ensures p >= 1
  {
    if k == 0 then 1 else 2 * Pow2(k - 1)
  }
}
