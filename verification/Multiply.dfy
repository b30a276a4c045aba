/** The shift-and-add multiplier of the MIPS simulator (machine/mipssim.cc). */
module Multiply {
  import opened Words

  /** The signed 64-bit number held in a pair of C `int`s. */
  function SignedPair(hi: Word, lo: Word): int {
    Signed(hi) * TWO32 + lo
  }

  function UnsignedPair(hi: Word, lo: Word): int {
    hi * TWO32 + lo
  }

  lemma Pow2Of32()
    ensures Pow2(32) == TWO32
  {
    assert Pow2(4) == 16 by { assert Pow2(2) == 4; }
    assert Pow2(8) == 0x100 by { assert Pow2(6) == 64; }
    assert Pow2(12) == 0x1000 by { assert Pow2(10) == 0x400; }
    assert Pow2(16) == 0x1_0000 by { assert Pow2(14) == 0x4000; }
    assert Pow2(20) == 0x10_0000 by { assert Pow2(18) == 0x4_0000; }
    assert Pow2(24) == 0x100_0000 by { assert Pow2(22) == 0x40_0000; }
    assert Pow2(28) == 0x1000_0000 by { assert Pow2(26) == 0x400_0000; }
    assert Pow2(30) == 0x4000_0000;
  }

  lemma Pow2Monotone(i: nat, j: nat)
    requires i <= j
    ensures Pow2(i) <= Pow2(j)
    decreases j - i
  {
    if i < j {
      Pow2Monotone(i, j - 1);
    }
  }

  lemma Distribute(x: int, y: int, z: int)
    ensures (x + y) * z == x * z + y * z
  {
  }

  lemma Regroup(h: int, p: int)
    ensures (2 * h) * p == h * (2 * p)
  {
  }

  lemma MulMonotone(x: int, y: int, z: int)
    requires x <= y && 0 <= z
    ensures x * z <= y * z
  {
    assert (y - x) * z >= 0;
    Distribute(y - x, x, z);
  }

  /**
   After `i` rounds: `d` is the part of `A` already multiplied in, `r` the bits still to come,
   `acc` the sum so far and `shifted` the addend of the next bit.  `a` is what the C variable holds:
   `r` itself, or `r` below a run of sign bits.
   */
  ghost predicate Progress(A: Word, b: Word, negative: bool, i: nat, a: int, d: int, r: int, acc: int, shifted: int) {
    && i <= 32
    && 0 <= d < Pow2(i)
    && 0 <= r < Pow2(32 - i)
    && A == d + r * Pow2(i)
    && a == (if negative then r - Pow2(32 - i) else r)
    && acc == d * b
    && shifted == Pow2(i) * b
  }

  /** A set bit: its addend fits in 64 bits, and completes the product when no bit above it is set. */
  lemma TakeBit(A: Word, b: Word, negative: bool, i: nat, a: int, d: int, r: int, acc: int, shifted: int)
    requires Progress(A, b, negative, i, a, d, r, acc, shifted) && i < 32 && a % 2 == 1
    ensures r % 2 == 1 && d + Pow2(i) <= A
    ensures acc + shifted == (d + Pow2(i)) * b < TWO64
    ensures a == 1 ==> acc + shifted == A * b
  {
    LowBit(i, a, r, negative);
    hide Pow2;
    TakeBitFits(A, b, Pow2(i), d, r);
  }

  /** The bits still to come end in the same bit as the C variable does, sign bits or not. */
  lemma LowBit(i: nat, a: int, r: int, negative: bool)
    requires i < 32 && a == if negative then r - Pow2(32 - i) else r
    ensures r % 2 == a % 2 && (r >= 0 && a == 1 ==> r == 1 || r == 1 + Pow2(32 - i))
  {
    assert Pow2(32 - i) == 2 * Pow2(31 - i);
  }

  lemma TakeBitFits(A: Word, b: Word, p: int, d: int, r: int)
    requires 0 <= d < p && r >= 1 && A == d + r * p
    ensures d + p <= A && d * b + p * b == (d + p) * b < TWO64
    ensures r == 1 ==> d + p == A
  {
    MulMonotone(1, r, p);
    Distribute(d, p, b);
    MulMonotone(d + p, A, b);
    MulMonotone(A, TWO32, b);
    assert A * b <= TWO32 * b < TWO64;
  }

  lemma NextBit(A: Word, b: Word, negative: bool, i: nat, a: int, d: int, r: int, acc: int, shifted: int)
    requires Progress(A, b, negative, i, a, d, r, acc, shifted) && i < 32
    ensures 2 * shifted < TWO64
    ensures Progress(A, b, negative, i + 1, a / 2, if a % 2 == 1 then d + Pow2(i) else d, r / 2,
                     if a % 2 == 1 then acc + shifted else acc, 2 * shifted)
  {
    var p, q := Pow2(i), Pow2(31 - i);
    assert Pow2(32 - i) == 2 * q && Pow2(i + 1) == 2 * p;
    Pow2Monotone(i + 1, 32);
    Pow2Of32();
    hide Pow2;
    if a % 2 == 1 {
      TakeBit(A, b, negative, i, a, d, r, acc, shifted);
    }
    NextBitSplit(A, negative, p, q, a, d, r);
    DoubledFits(p, b);
  }

  lemma DoubledFits(p: int, b: Word)
    requires 1 <= p && 2 * p <= TWO32
    ensures 2 * (p * b) == (2 * p) * b < TWO64
  {
    Distribute(p, p, b);
    MulMonotone(2 * p, TWO32, b);
    assert TWO32 * b < TWO64;
  }

  lemma NextBitSplit(A: Word, negative: bool, p: int, q: int, a: int, d: int, r: int)
    requires 0 <= d < p && 0 <= r < 2 * q && A == d + r * p
    requires a == if negative then r - 2 * q else r
    ensures A == (if a % 2 == 1 then d + p else d) + (r / 2) * (2 * p)
    ensures r / 2 < q && a / 2 == if negative then r / 2 - q else r / 2
  {
    var h := r / 2;
    assert r == 2 * h + a % 2;
    Regroup(h, p);
    Distribute(2 * h, a % 2, p);
  }

  /** `unsigned` addition of two double words by halves, with the carry recovered from the wrapped low half. */
  method AddPair(hi: Word, lo: Word, bHi: Word, bLo: Word) returns (hi': Word, lo': Word)
    requires UnsignedPair(hi, lo) + UnsignedPair(bHi, bLo) < TWO64
    ensures UnsignedPair(hi', lo') == UnsignedPair(hi, lo) + UnsignedPair(bHi, bLo)
  {
    ghost var sum := lo as int + bLo;
    ghost var carry := if sum >= TWO32 then 1 else 0;
    QuotientIs(sum, TWO32, carry, sum - carry * TWO32);
    assert hi as int + bHi + carry < TWO32;
    QuotientIs(hi as int + carry, TWO32, 0, hi + carry);
    QuotientIs(hi as int + carry + bHi, TWO32, 0, hi + carry + bHi);
    lo' := Wrap(lo + bLo);
    hi' := hi;
    if lo' < bLo {  // carry out of the low bits
      hi' := Wrap(hi' + 1);
    }
    hi' := Wrap(hi' + bHi);
  }

  /** One-bit left shift of a double word by halves. */
  method ShiftPair(bHi: Word, bLo: Word) returns (bHi': Word, bLo': Word)
    requires 2 * UnsignedPair(bHi, bLo) < TWO64
    ensures UnsignedPair(bHi', bLo') == 2 * UnsignedPair(bHi, bLo)
  {
    bHi' := Wrap(2 * bHi);
    if bLo >= TWO31 {
      bHi' := bHi' + 1;
    }
    bLo' := Wrap(2 * bLo);
  }

  /** Two's complement of a non-zero double word by halves. */
  method NegatePair(hi: Word, lo: Word) returns (hi': Word, lo': Word)
    requires UnsignedPair(hi, lo) > 0
    ensures UnsignedPair(hi', lo') == TWO64 - UnsignedPair(hi, lo)
  {
    hi' := TWO32 - 1 - hi;
    lo' := TWO32 - 1 - lo;
    lo' := Wrap(lo' + 1);
    if lo' == 0 {
      hi' := Wrap(hi' + 1);
    }
  }

  /**
   The main loop: `a` is a C `int` shifted right arithmetically, so a negative `a` never becomes
   zero and the loop then runs for all 32 bits; a non-negative one leaves at its top set bit.
   */
  method UnsignedProduct(a0: int, b0: Word) returns (hi: Word, lo: Word)
    requires IsInt32(a0) && a0 != 0
    ensures UnsignedPair(hi, lo) == Wrap(a0) * b0
  {
    hide Progress, Pow2;
    var a := a0;
    var bLo: Word, bHi: Word := b0, 0;
    lo, hi := 0, 0;
    ghost var A, negative := Wrap(a0), a0 < 0;
    ghost var d, r := 0, A;
    ProgressStarts(a0, b0);
    var i := 0;
    while i < 32
      invariant 0 <= i <= 32
      invariant Progress(A, b0, negative, i, a, d, r, UnsignedPair(hi, lo), UnsignedPair(bHi, bLo))
    {
      NextBit(A, b0, negative, i, a, d, r, UnsignedPair(hi, lo), UnsignedPair(bHi, bLo));
      if a % 2 == 1 {
        TakeBit(A, b0, negative, i, a, d, r, UnsignedPair(hi, lo), UnsignedPair(bHi, bLo));
        hi, lo := AddPair(hi, lo, bHi, bLo);
        if a == 1 {  // no set bit above this one
          return;
        }
        d := d + Pow2(i);
      }
      bHi, bLo := ShiftPair(bHi, bLo);
      a, r, i := a / 2, r / 2, i + 1;
    }
    ProgressEnds(A, b0, negative, a, d, r, UnsignedPair(hi, lo), UnsignedPair(bHi, bLo));
  }

  lemma ProgressStarts(a0: int, b: Word)
    requires IsInt32(a0)
    ensures Progress(Wrap(a0), b, a0 < 0, 0, a0, 0, Wrap(a0), 0, b)
  {
    Pow2Of32();
  }

  lemma ProgressEnds(A: Word, b: Word, negative: bool, a: int, d: int, r: int, acc: int, shifted: int)
    requires Progress(A, b, negative, 32, a, d, r, acc, shifted)
    ensures acc == A * b
  {
    assert Pow2(0) == 1;
    assert r == 0;
    hide Pow2;
  }

  /** Wrapping absolute value: the most negative int is its own negation, and reads as 2^31 unsigned. */
  method Magnitude(x: Word) returns (a: int, negated: bool)
    ensures IsInt32(a) && (a == 0 <==> x == 0)
    ensures negated == (Signed(x) < 0)
    ensures Wrap(a) == if negated then -Signed(x) else Signed(x)
  {
    a, negated := Signed(x), false;
    if a < 0 {
      negated := true;
      a := Signed(Wrap(-a));
    }
  }

  /** `Mult`: hi:lo receives the exact double-length product, whatever the operands. */
  method Mult(a0: Word, b0: Word, signedArith: bool) returns (hi: Word, lo: Word)
    ensures signedArith ==> SignedPair(hi, lo) == Signed(a0) * Signed(b0)
    ensures !signedArith ==> UnsignedPair(hi, lo) == a0 * b0
  {
    if a0 == 0 || b0 == 0 {
      return 0, 0;
    }
    if signedArith {
      var a, negA := Magnitude(a0);
      var b, negB := Magnitude(b0);
      var negative := negA != negB;
      hi, lo := UnsignedProduct(a, Wrap(b));
      MagnitudeProduct(Signed(a0), Signed(b0), Wrap(a), Wrap(b));
      ghost var product := UnsignedPair(hi, lo);
      if negative {
        hi, lo := NegatePair(hi, lo);
      }
      SignedResult(hi, lo, product, negative);
    } else {
      hi, lo := UnsignedProduct(Signed(a0), b0);
    }
  }

  lemma SignedResult(hi: Word, lo: Word, product: int, negative: bool)
    requires 0 < product <= TWO31 * TWO31
    requires UnsignedPair(hi, lo) == if negative then TWO64 - product else product
    ensures SignedPair(hi, lo) == if negative then -product else product
  {
  }

  lemma MagnitudeProduct(x: int, y: int, m: int, n: int)
    requires IsInt32(x) && IsInt32(y) && x != 0 && y != 0
    requires m == (if x < 0 then -x else x) && n == (if y < 0 then -y else y)
    ensures 0 < m * n <= TWO31 * TWO31
    ensures x * y == if (x < 0) != (y < 0) then -(m * n) else m * n
  {
    MulMonotone(1, m, n);
    MulMonotone(m, TWO31, n);
    if x < 0 && y < 0 { assert (-m) * (-n) == m * n; }
    else if x < 0 { assert (-m) * n == -(m * n); }
    else if y < 0 { assert m * (-n) == -(m * n); }
  }

  /** The pair is determined by either reading, so the contract of `Mult` fixes both result registers. */
  lemma PairDetermined(hi: Word, lo: Word, hi': Word, lo': Word)
    requires SignedPair(hi, lo) == SignedPair(hi', lo') || UnsignedPair(hi, lo) == UnsignedPair(hi', lo')
    ensures hi == hi' && lo == lo'
  {
  }
}
