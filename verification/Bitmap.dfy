/** Single bits of a 32-bit word, by masks. */
module WordBits {
  function Mask(k: bv5): bv32 { (1 as bv32) << (k as bv32) }

  predicate TestBit(w: bv32, k: bv5) { w & Mask(k) != 0 }
  function SetBit(w: bv32, k: bv5): bv32 { w | Mask(k) }
  function ClearBit(w: bv32, k: bv5): bv32 { w & !Mask(k) }

  lemma WriteSameBit(w: bv32, k: bv5)
    ensures TestBit(SetBit(w, k), k) && !TestBit(ClearBit(w, k), k)
  {
  }

  lemma SetOtherBit(w: bv32, j: bv5, k: bv5)
    requires j != k
    ensures TestBit(SetBit(w, j), k) == TestBit(w, k)
  {
    DisjointMasks(j, k);
    Bitwise(w, Mask(j), Mask(k));
    hide Mask;
  }

  lemma ClearOtherBit(w: bv32, j: bv5, k: bv5)
    requires j != k
    ensures TestBit(ClearBit(w, j), k) == TestBit(w, k)
  {
    DisjointMasks(j, k);
    Bitwise(w, Mask(j), Mask(k));
    hide Mask;
  }

  lemma DisjointMasks(j: bv5, k: bv5)
    requires j != k
    ensures Mask(j) & Mask(k) == 0
  {
  }

  lemma Bitwise(w: bv32, a: bv32, b: bv32)
    requires a & b == 0
    ensures (w | a) & b == w & b && w & !a & b == w & b
  {
  }
}

/** The word-packed bitmap (lib/bitmap.cc), proved against the sequence of bits it stands for. */
module Bitmaps {
  import opened WordBits


  function BitIndex(which: int): bv5
  { (if which < 0 then 0 else which % 32) as bv5 }

  /** Bit `which` of an array of words. */
  predicate Bit(words: seq<bv32>, which: int)
    requires 0 <= which < 32 * |words|
  {
    TestBit(words[which / 32], BitIndex(which))
  }

  lemma IndexOf(which: int)
    requires 0 <= which
    ensures BitIndex(which) as int == which % 32
  {
  }

  lemma SameIndex(i: int, j: int)
    requires 0 <= i && 0 <= j && BitIndex(i) == BitIndex(j)
    ensures i % 32 == j % 32
  {
    IndexOf(i);
    IndexOf(j);
  }

  /** The first `n` bits of an array of words. */
  ghost function Bits(words: seq<bv32>, n: nat): (b: seq<bool>)
    requires n <= 32 * |words|
    ensures |b| == n
  {
    seq(n, i requires 0 <= i < n => Bit(words, i))
  }

  /** The array of words with one bit written. */
  function WriteWord(words: seq<bv32>, which: nat, value: bool): seq<bv32>
    requires which < 32 * |words|
  {
    var w, k := words[which / 32], BitIndex(which);
    words[which / 32 := if value then SetBit(w, k) else ClearBit(w, k)]
  }

  /** Writing a bit changes that bit alone. */
  lemma WriteWordBits(words: seq<bv32>, which: nat, value: bool, n: nat)
    requires which < n <= 32 * |words|
    ensures Bits(WriteWord(words, which, value), n) == Bits(words, n)[which := value]
  {
    forall i | 0 <= i < n
      ensures Bit(WriteWord(words, which, value), i) == if i == which then value else Bit(words, i)
    {
      WriteWordBit(words, which, value, i);
    }
  }

  lemma WriteWordBit(words: seq<bv32>, which: nat, value: bool, i: nat)
    requires which < 32 * |words| && i < 32 * |words|
    ensures Bit(WriteWord(words, which, value), i) == if i == which then value else Bit(words, i)
  {
    hide BitIndex, TestBit, SetBit, ClearBit;
    if i == which {
      WriteSameBit(words[which / 32], BitIndex(which));
    } else if i / 32 == which / 32 {
      assert BitIndex(i) != BitIndex(which) by {
        if BitIndex(i) == BitIndex(which) {
          SameIndex(i, which);
        }
      }
      SetOtherBit(words[which / 32], BitIndex(which), BitIndex(i));
      ClearOtherBit(words[which / 32], BitIndex(which), BitIndex(i));
    }
  }

  /** How many of a sequence of bits are clear. */
  function CountClear(b: seq<bool>): nat {
    if b == [] then 0 else CountClear(b[..|b| - 1]) + if b[|b| - 1] then 0 else 1
  }

  lemma {:induction false} CountSet(b: seq<bool>, i: nat)
    requires i < |b| && !b[i]
    ensures CountClear(b[i := true]) == CountClear(b) - 1
  {
    var n := |b| - 1;
    if i == n {
      assert b[i := true][..n] == b[..n];
    } else {
      assert b[i := true][..n] == b[..n][i := true];
      CountSet(b[..n], i);
    }
  }

  /** There is a clear bit exactly when the count is not zero. */
  lemma {:induction false} CountPositive(b: seq<bool>)
    ensures CountClear(b) > 0 <==> exists i :: 0 <= i < |b| && !b[i]
  {
    if b != [] {
      var n := |b| - 1;
      CountPositive(b[..n]);
      if i :| 0 <= i < |b| && !b[i] {
        if i < n { assert !b[..n][i]; }
      }
      if CountClear(b[..n]) > 0 {
        var i :| 0 <= i < n && !b[..n][i];
        assert !b[i];
      }
    }
  }

  /** The set bits of a bitmap. */
  ghost function Marked(b: seq<bool>): set<int> {
    set i | 0 <= i < |b| && b[i]
  }

  lemma MarkOne(b: seq<bool>, i: nat)
    requires i < |b|
    ensures Marked(b[i := true]) == Marked(b) + {i} && Marked(b[i := false]) == Marked(b) - {i}
    ensures b[i] <==> i in Marked(b)
  {
  }

  class Bitmap {
    const numBits: nat
    var words: array<bv32>

    ghost predicate Valid()
      reads this
    {
      numBits <= 32 * words.Length
    }

    ghost function Value(): (b: seq<bool>)
      requires Valid()
      reads this, words
      ensures |b| == numBits
    {
      Bits(words[..], numBits)
    }

    constructor (numItems: nat)
      requires numItems > 0
      ensures Valid() && numBits == numItems && fresh(words) && words.Length == (numItems + 31) / 32
      ensures Value() == seq(numItems, _ => false)
    {
      numBits := numItems;
      words := new bv32[(numItems + 31) / 32](_ => 0);
      new;
      assert forall i :: 0 <= i < numItems ==> !Bit(words[..], i);
    }

    /** Overwrite the words, as reading a stored bitmap does. */
    method Load(ws: seq<bv32>)
      requires Valid() && |ws| == words.Length
      modifies words
      ensures Valid() && words[..] == ws
    {
      var i := 0;
      while i < words.Length
        invariant 0 <= i <= words.Length && words[..i] == ws[..i]
      {
        words[i] := ws[i];
        i := i + 1;
      }
    }

    method Mark(which: nat)
      requires Valid() && which < numBits
      modifies words
      ensures Valid() && Value() == old(Value())[which := true]
    {
      hide Bits, SetBit, BitIndex;
      WriteWordBits(words[..], which, true, numBits);
      words[which / 32] := SetBit(words[which / 32], BitIndex(which));
      assert words[..] == WriteWord(old(words[..]), which, true);
    }

    method Clear(which: nat)
      requires Valid() && which < numBits
      modifies words
      ensures Valid() && Value() == old(Value())[which := false]
    {
      hide Bits, ClearBit, BitIndex;
      WriteWordBits(words[..], which, false, numBits);
      words[which / 32] := ClearBit(words[which / 32], BitIndex(which));
      assert words[..] == WriteWord(old(words[..]), which, false);
    }

    method Test(which: nat) returns (marked: bool)
      requires Valid() && which < numBits
      ensures marked == Value()[which]
    {
      marked := TestBit(words[which / 32], BitIndex(which));
    }

    /** The lowest clear bit, now set; -1 exactly when every bit is set. */
    method FindAndSet() returns (i: int)
      requires Valid()
      modifies words
      ensures Valid() && -1 <= i < numBits
      ensures i == -1 <==> forall k :: 0 <= k < numBits ==> old(Value())[k]
      ensures i == -1 ==> Value() == old(Value())
      ensures i >= 0 ==> !old(Value())[i] && Value() == old(Value())[i := true]
      ensures i >= 0 ==> forall k :: 0 <= k < i ==> old(Value())[k]
    {
      i := 0;
      while i < numBits
        invariant 0 <= i <= numBits && words[..] == old(words[..])
        invariant forall k :: 0 <= k < i ==> Value()[k]
      {
        var marked := Test(i);
        if !marked {
          assert Value() == old(Value()) && !old(Value())[i];
          Mark(i);
          assert !(forall k :: 0 <= k < numBits ==> old(Value())[k]);
          return;
        }
        i := i + 1;
      }
      assert Value() == old(Value());
      i := -1;
    }

    method NumClear() returns (count: nat)
      requires Valid()
      ensures count == CountClear(Value())
    {
      count := 0;
      var i := 0;
      while i < numBits
        invariant 0 <= i <= numBits
        invariant count == CountClear(Value()[..i])
      {
        var marked := Test(i);
        assert Value()[..i + 1][..i] == Value()[..i];
        if !marked {
          count := count + 1;
        }
        i := i + 1;
      }
      assert Value()[..numBits] == Value();
    }
  }
}
