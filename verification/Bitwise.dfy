/** Words bit by bit: what and, or, exclusive or, complement and shifts do to each bit. */
module Bitwise {
  import opened Words

  /** Bit `k` of an integer in two's complement; bit 0 is the least significant. */
  predicate Bit(n: int, k: nat)
    decreases k
  { if k == 0 then n % 2 == 1 else Bit(n / 2, k - 1) }

  /** The low `n` bits of two numbers, combined bit by bit. */
  function Combine(op: (bool, bool) -> bool, a: int, b: int, n: nat): (r: nat)
    ensures r < Pow2(n)
    decreases n
  {
    if n == 0 then 0
    else 2 * Combine(op, a / 2, b / 2, n - 1) + if op(a % 2 == 1, b % 2 == 1) then 1 else 0
  }

  lemma {:induction false} CombineBit(op: (bool, bool) -> bool, a: int, b: int, n: nat, k: nat)
    requires k < n
    ensures Bit(Combine(op, a, b, n), k) <==> op(Bit(a, k), Bit(b, k))
    decreases n
  {
    var r := Combine(op, a / 2, b / 2, n - 1);
    var low := if op(a % 2 == 1, b % 2 == 1) then 1 else 0;
    QuotientIs(Combine(op, a, b, n), 2, r, low);
    hide Combine;
    if k > 0 {
      CombineBit(op, a / 2, b / 2, n - 1, k - 1);
    }
  }

  lemma Pow2Is32()
    ensures Pow2(32) == TWO32 && Pow2(31) == TWO31
  {
    assert Pow2(8) == 0x100;
    assert Pow2(16) == 0x1_0000;
    assert Pow2(24) == 0x100_0000;
    assert Pow2(31) == TWO31;
  }

  function CombineWords(op: (bool, bool) -> bool, a: Word, b: Word): Word {
    Pow2Is32();
    Combine(op, a, b, 32)
  }

  function BitAnd(a: Word, b: Word): Word { CombineWords((x, y) => x && y, a, b) }
  function BitOr(a: Word, b: Word): Word { CombineWords((x, y) => x || y, a, b) }
  function BitXor(a: Word, b: Word): Word { CombineWords((x, y) => x != y, a, b) }
  function BitNot(a: Word): Word { CombineWords((x, y) => !x, a, a) }

  lemma BitwiseBits(a: Word, b: Word, k: nat)
    requires k < 32
    ensures Bit(BitAnd(a, b), k) <==> Bit(a, k) && Bit(b, k)
    ensures Bit(BitOr(a, b), k) <==> Bit(a, k) || Bit(b, k)
    ensures Bit(BitXor(a, b), k) <==> Bit(a, k) != Bit(b, k)
    ensures Bit(BitNot(a), k) <==> !Bit(a, k)
  {
    hide Bit, Combine;
    CombineBit((x, y) => x && y, a, b, 32, k);
    CombineBit((x, y) => x || y, a, b, 32, k);
    CombineBit((x, y) => x != y, a, b, 32, k);
    CombineBit((x, y) => !x, a, a, 32, k);
  }

  // ---- shifts ----

  lemma {:induction false} DoubledBits(n: int, s: nat, k: nat)
    ensures Bit(n * Pow2(s), k) <==> k >= s && Bit(n, k - s)
    decreases s
  {
    if s > 0 {
      var m := n * Pow2(s - 1);
      assert n * Pow2(s) == 2 * m;
      if k > 0 {
        DoubledBits(n, s - 1, k - 1);
      }
    } else {
      assert n * Pow2(s) == n;
    }
  }

  lemma {:induction false} HalvedBits(n: int, s: nat, k: nat)
    ensures Bit(n / Pow2(s), k) <==> Bit(n, k + s)
    decreases s
  {
    if s > 0 {
      DivDiv(n, Pow2(s - 1));
      HalvedBits(n / 2, s - 1, k);
    }
  }

  lemma DivDiv(n: int, p: int)
    requires p > 0
    ensures n / (2 * p) == n / 2 / p
  {
    var q, r := n / 2 / p, n / 2 % p;
    assert n / 2 == q * p + r;
    assert n == q * (2 * p) + (2 * r + n % 2);
    QuotientIs(n, 2 * p, q, 2 * r + n % 2);
  }

  lemma TwiceTimes(q: int, p: int)
    ensures q * (2 * p) == 2 * (q * p)
  {
  }

  /** The low bits of a number are those of its remainder. */
  lemma {:induction false} LowBits(n: int, m: nat, k: nat)
    requires k < m
    ensures Bit(n % Pow2(m), k) <==> Bit(n, k)
    decreases m
  {
    var p := Pow2(m - 1);
    var q, r := n / (2 * p), n % (2 * p);
    TwiceTimes(q, p);
    QuotientIs(n, 2, q * p + r / 2, r % 2);
    if k > 0 {
      QuotientIs(n / 2, p, q, r / 2);
      LowBits(n / 2, m - 1, k - 1);
    }
  }

  /** From the sign bit on, all bits of a signed number are alike. */
  lemma {:induction false} SignBits(n: int, m: nat, k: nat)
    requires -Pow2(m) <= n < Pow2(m) && k >= m
    ensures Bit(n, k) <==> n < 0
    decreases m
  {
    if m > 0 {
      SignBits(n / 2, m - 1, k - 1);
    } else {
      AllAlike(n, k);
    }
  }

  lemma {:induction false} AllAlike(n: int, k: nat)
    requires n == 0 || n == -1
    ensures Bit(n, k) <==> n < 0
  {
    if k > 0 {
      assert n / 2 == n;
      AllAlike(n, k - 1);
    }
  }

  lemma WrapBits(n: int, k: nat)
    requires k < 32
    ensures Bit(Wrap(n), k) <==> Bit(n, k)
  {
    Pow2Is32();
    LowBits(n, 32, k);
  }

  lemma SignedBits(w: Word, k: nat)
    ensures Bit(Signed(w), k) <==> Bit(w, if k < 32 then k else 31)
  {
    hide Bit, Pow2;
    Pow2Is32();
    var n := Signed(w);
    QuotientIs(n, TWO32, if w < TWO31 then 0 else -1, w);
    assert Wrap(n) == w;
    if k < 32 {
      WrapBits(n, k);
    } else {
      SignBits(n, 31, k);
      SignBits(n, 31, 31);
      WrapBits(n, 31);
    }
  }

  /** A left shift moves every bit up and brings in zeros. */
  lemma ShiftedLeft(w: Word, s: nat, k: nat)
    requires k < 32
    ensures Bit(Wrap(w * Pow2(s)), k) <==> k >= s && Bit(w, k - s)
  {
    WrapBits(w * Pow2(s), k);
    DoubledBits(w, s, k);
  }

  /** An arithmetic right shift moves every bit down and brings in copies of the sign bit. */
  lemma ShiftedRight(w: Word, s: nat, k: nat)
    requires k < 32
    ensures Bit(Wrap(Signed(w) / Pow2(s)), k) <==> Bit(w, if k + s < 32 then k + s else 31)
  {
    hide Bit, Pow2;
    WrapBits(Signed(w) / Pow2(s), k);
    HalvedBits(Signed(w), s, k);
    SignedBits(w, k + s);
  }
}
