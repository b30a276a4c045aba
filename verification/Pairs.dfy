/** What the two result registers of a multiplication or division stand for. */
module Pairs {
  import opened Words
  import opened Isa

  /** High and low word of a product. */
  predicate IsProduct(a: int, b: int, hi: int, lo: Word) { a * b == hi * TWO32 + lo }

  /** Quotient and remainder of a division rounded toward zero. */
  predicate IsQuotient(a: int, b: int, q: int, r: int) {
    a == q * b + r && (if b < 0 then b < r < -b else -b < r < b) && (a >= 0 ==> r >= 0) && (a <= 0 ==> r <= 0)
  }

  /** The one signed quotient that is no 32-bit number is that of the least by -1. */
  predicate Fits(a: int, b: int) { !(a == -TWO31 && b == -1) }

  lemma PairMeans(op: MulDivOp, a: Word, b: Word)
    ensures op == MULT ==> IsProduct(Signed(a), Signed(b), Signed(HiLo(op, a, b).0), HiLo(op, a, b).1)
    ensures op == MULTU ==> IsProduct(a, b, HiLo(op, a, b).0, HiLo(op, a, b).1)
    ensures op in {DIV, DIVU} && b == 0 ==> HiLo(op, a, b) == (0, 0)
    ensures op == DIV && b != 0 && Fits(Signed(a), Signed(b)) ==>
              IsQuotient(Signed(a), Signed(b), Signed(HiLo(op, a, b).1), Signed(HiLo(op, a, b).0))
    ensures op == DIVU && b != 0 ==> IsQuotient(a, b, HiLo(op, a, b).1, HiLo(op, a, b).0)
  {
    hide IsProduct, IsQuotient, Halves, TruncDiv;
    match op
    case MULT => SignedPair(Signed(a), Signed(b));
    case MULTU => UnsignedPair(a, b);
    case DIV =>
      if b != 0 && Fits(Signed(a), Signed(b)) { TruncatedPair(Signed(a), Signed(b)); }
    case DIVU =>
      if b != 0 { UnsignedDivision(a, b); }
  }

  lemma Times(a: int, b: int, c: int)
    requires a <= b && c >= 0
    ensures a * c <= b * c
  {
    assert (b - a) * c >= 0;
  }

  lemma ProductBound(x: int, y: int, m: int)
    requires 0 <= m && -m <= x <= m && -m <= y <= m
    ensures -(m * m) <= x * y <= m * m
    ensures x >= 0 && y >= 0 ==> x * y >= 0
  {
    var p, q := if x < 0 then -x else x, if y < 0 then -y else y;
    Times(p, m, q);
    Times(q, m, m);
    Times(0, p, q);
    assert x * y == if (x < 0) == (y < 0) then p * q else -(p * q);
  }

  lemma SignedPair(x: int, y: int)
    requires IsInt32(x) && IsInt32(y)
    ensures IsProduct(x, y, Signed(Halves(x * y).0), Halves(x * y).1)
  {
    ProductBound(x, y, 0x8000_0000);
    HalvesOf(x * y);
  }

  lemma HalvesOf(n: int)
    requires -0x4000_0000_0000_0000 <= n <= 0x4000_0000_0000_0000
    ensures n == Signed(Halves(n).0) * TWO32 + Halves(n).1
  {
    var h, l := n / TWO32, n % TWO32;
    if n < 0 {
      QuotientIs(n, TWO64, -1, n + TWO64);
      QuotientIs(n + TWO64, TWO32, h + TWO32, l);
    } else {
      QuotientIs(n, TWO64, 0, n);
    }
  }

  lemma UnsignedPair(a: Word, b: Word)
    ensures IsProduct(a, b, Halves(a * b).0, Halves(a * b).1)
  {
    ProductBound(a, b, 0xffff_ffff);
    UnsignedHalves(a * b);
  }

  lemma UnsignedHalves(n: int)
    requires 0 <= n <= 0xffff_ffff * 0xffff_ffff
    ensures n == Halves(n).0 * TWO32 + Halves(n).1
  {
    QuotientIs(n, TWO64, 0, n);
  }

  lemma TruncatedPair(a: int, b: int)
    requires IsInt32(a) && IsInt32(b) && b != 0 && Fits(a, b)
    ensures var q := TruncDiv(a, b); IsQuotient(a, b, Signed(Wrap(q)), Signed(Wrap(a - q * b)))
  {
    hide TruncDiv;
    Truncated(a, b);
    var q := TruncDiv(a, b);
    SignedWrap(q);
    SignedWrap(a - q * b);
  }

  /** A division of magnitudes. */
  lemma Magnitudes(m: int, d: int)
    requires m >= 0 && d > 0
    ensures m == m / d * d + m % d && 0 <= m / d <= m && 0 <= m % d < d
    ensures d > 1 ==> 2 * (m / d) <= m
  {
    var q := m / d;
    Times(1, d, q);
    if d > 1 { Times(2, d, q); }
  }

  lemma Truncated(a: int, b: int)
    requires IsInt32(a) && IsInt32(b) && b != 0 && Fits(a, b)
    ensures var q := TruncDiv(a, b); IsQuotient(a, b, q, a - q * b) && IsInt32(q) && IsInt32(a - q * b)
  {
    var m, d := if a < 0 then -a else a, if b < 0 then -b else b;
    Magnitudes(m, d);
    var q0, r0 := m / d, m % d;
    var q := if (a < 0) == (b < 0) then q0 else -q0;
    assert q == TruncDiv(a, b);
    SignsOut(q0, d, q, b, a < 0, b < 0);
  }

  lemma SignsOut(q0: int, d: int, q: int, b: int, s: bool, t: bool)
    requires b == (if t then -d else d) && q == if s == t then q0 else -q0
    ensures q * b == if s then -(q0 * d) else q0 * d
  {
  }

  lemma UnsignedDivision(a: Word, b: Word)
    requires b != 0
    ensures IsQuotient(a, b, a / b, a % b) && a / b <= a
  {
    Magnitudes(a, b);
  }
}
