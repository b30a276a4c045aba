/** A word stored by SWR/SWL at any address, and reloaded by LWR/LWL, is the same word. */
module Unaligned {
  import opened Words
  import opened PagedMemory
  import opened Isa
  import opened DelayedLoads
  import opened Options

  /** The little-endian word at a physical address. */
  function WordAt(mem: Memory, pa: int): Word
    requires 0 <= pa && pa + 4 <= MEMORY_SIZE
  { FromBytes(mem[pa], mem[pa + 1], mem[pa + 2], mem[pa + 3]) }

  /** The virtual address `j` bytes on from `a`. */
  function Nth(a: Word, j: int): Word { Wrap(a as int + j) }

  /** Where byte `j` of a word stored at offset `k` of one aligned block, running on into another, lands. */
  function Slot(p0: int, p1: int, k: int, j: int): int {
    if k + j < 4 then p0 + k + j else p1 + k + j - 4
  }

  /** Two aligned blocks: the same one when the address is aligned, different ones otherwise. */
  predicate Blocks(p0: int, p1: int, k: int) {
    && 0 <= p0 && p0 + 4 <= MEMORY_SIZE && p0 % 4 == 0
    && 0 <= p1 && p1 + 4 <= MEMORY_SIZE && p1 % 4 == 0
    && 0 <= k < 4
    && (p0 == p1 <==> k == 0)
  }

  function StoreRight(mem: Memory, p0: int, k: int, v: Word): Memory
    requires Blocks(p0, p0, 0) && 0 <= k < 4
  { Poke(mem, p0, 4, SplitRight(WordAt(mem, p0), v, k)) }

  function StoreLeft(mem: Memory, p1: int, k: int, v: Word): Memory
    requires Blocks(p1, p1, 0) && 0 <= k < 4
  { Poke(mem, p1, 4, SplitLeft(WordAt(mem, p1), v, (k + 3) % 4)) }

  lemma PokeBytes(mem: Memory, p: int, b0: Byte, b1: Byte, b2: Byte, b3: Byte)
    requires Blocks(p, p, 0)
    ensures Poke(mem, p, 4, FromBytes(b0, b1, b2, b3)) == mem[p := b0][p + 1 := b1][p + 2 := b2][p + 3 := b3]
  {
    BytesOfFromBytes(b0, b1, b2, b3);
  }

  lemma WordAtBytes(mem: Memory, p: int, n: int)
    requires Blocks(p, p, 0) && 0 <= n < 4
    ensures ByteOf(WordAt(mem, p), n) == mem[p + n]
  {
    BytesOfFromBytes(mem[p], mem[p + 1], mem[p + 2], mem[p + 3]);
  }

  lemma StoreRightBytes(mem: Memory, p0: int, k: int, v: Word, q: int)
    requires Blocks(p0, p0, 0) && 0 <= k < 4 && 0 <= q < MEMORY_SIZE
    ensures StoreRight(mem, p0, k, v)[q] == if p0 + k <= q < p0 + 4 then ByteOf(v, q - p0 - k) else mem[q]
  {
    var w := WordAt(mem, p0);
    PokeBytes(mem, p0, SwrByte(w, v, k, 0), SwrByte(w, v, k, 1), SwrByte(w, v, k, 2), SwrByte(w, v, k, 3));
    if p0 <= q < p0 + 4 {
      WordAtBytes(mem, p0, q - p0);
    }
  }

  lemma StoreLeftBytes(mem: Memory, p1: int, k: int, v: Word, q: int)
    requires Blocks(p1, p1, 0) && 0 <= k < 4 && 0 <= q < MEMORY_SIZE
    ensures var m := (k + 3) % 4;
            StoreLeft(mem, p1, k, v)[q] == if p1 <= q <= p1 + m then ByteOf(v, q - p1 + 3 - m) else mem[q]
  {
    var w := WordAt(mem, p1);
    var m := (k + 3) % 4;
    PokeBytes(mem, p1, SwlByte(w, v, m, 0), SwlByte(w, v, m, 1), SwlByte(w, v, m, 2), SwlByte(w, v, m, 3));
    if p1 <= q < p1 + 4 {
      WordAtBytes(mem, p1, q - p1);
    }
  }

  /** The pair of stores puts byte `j` in slot `j` and changes nothing else. */
  lemma StorePair(mem: Memory, p0: int, p1: int, k: int, v: Word)
    requires Blocks(p0, p1, k)
    ensures var mem' := StoreLeft(StoreRight(mem, p0, k, v), p1, k, v);
            (forall j :: 0 <= j < 4 ==> mem'[Slot(p0, p1, k, j)] == ByteOf(v, j)) &&
            (forall q :: 0 <= q < MEMORY_SIZE && (forall j :: 0 <= j < 4 ==> q != Slot(p0, p1, k, j)) ==>
              mem'[q] == mem[q])
  {
    forall j | 0 <= j < 4
      ensures StoreLeft(StoreRight(mem, p0, k, v), p1, k, v)[Slot(p0, p1, k, j)] == ByteOf(v, j)
    {
      StorePairSlot(mem, p0, p1, k, v, j);
    }
    forall q | 0 <= q < MEMORY_SIZE && (forall j :: 0 <= j < 4 ==> q != Slot(p0, p1, k, j))
      ensures StoreLeft(StoreRight(mem, p0, k, v), p1, k, v)[q] == mem[q]
    {
      StorePairFrame(mem, p0, p1, k, v, q);
    }
  }

  lemma StorePairSlot(mem: Memory, p0: int, p1: int, k: int, v: Word, j: int)
    requires Blocks(p0, p1, k) && 0 <= j < 4
    ensures StoreLeft(StoreRight(mem, p0, k, v), p1, k, v)[Slot(p0, p1, k, j)] == ByteOf(v, j)
  {
    hide StoreLeft, StoreRight, ByteOf;
    StoreLeftBytes(StoreRight(mem, p0, k, v), p1, k, v, Slot(p0, p1, k, j));
    StoreRightBytes(mem, p0, k, v, Slot(p0, p1, k, j));
  }

  lemma StorePairFrame(mem: Memory, p0: int, p1: int, k: int, v: Word, q: int)
    requires Blocks(p0, p1, k) && 0 <= q < MEMORY_SIZE
    requires forall j :: 0 <= j < 4 ==> q != Slot(p0, p1, k, j)
    ensures StoreLeft(StoreRight(mem, p0, k, v), p1, k, v)[q] == mem[q]
  {
    hide StoreLeft, StoreRight, ByteOf;
    StoreLeftBytes(StoreRight(mem, p0, k, v), p1, k, v, q);
    StoreRightBytes(mem, p0, k, v, q);
    assert q != Slot(p0, p1, k, 0) && q != Slot(p0, p1, k, 1) && q != Slot(p0, p1, k, 2) && q != Slot(p0, p1, k, 3);
  }

  /** The pair of loads reassembles the slots, whatever the register held before. */
  lemma LoadPair(mem: Memory, p0: int, p1: int, k: int, v: Word, base: Word)
    requires Blocks(p0, p1, k)
    requires forall j :: 0 <= j < 4 ==> mem[Slot(p0, p1, k, j)] == ByteOf(v, j)
    ensures MergeLeft(WordAt(mem, p1), MergeRight(WordAt(mem, p0), base, k), (k + 3) % 4) == v
  {
    var w0, w1, m := WordAt(mem, p0), WordAt(mem, p1), (k + 3) % 4;
    LoadPairByte(mem, p0, p1, k, v, base, 0);
    LoadPairByte(mem, p0, p1, k, v, base, 1);
    LoadPairByte(mem, p0, p1, k, v, base, 2);
    LoadPairByte(mem, p0, p1, k, v, base, 3);
    BytesOfWord(v);
  }

  lemma LoadPairByte(mem: Memory, p0: int, p1: int, k: int, v: Word, base: Word, n: int)
    requires Blocks(p0, p1, k) && 0 <= n < 4
    requires forall j :: 0 <= j < 4 ==> mem[Slot(p0, p1, k, j)] == ByteOf(v, j)
    ensures LwlByte(WordAt(mem, p1), MergeRight(WordAt(mem, p0), base, k), (k + 3) % 4, n) == ByteOf(v, n)
  {
    hide ByteOf, FromBytes, WordAt;
    var w0, w1, m := WordAt(mem, p0), WordAt(mem, p1), (k + 3) % 4;
    if n >= 3 - m {
      WordAtBytes(mem, p1, n - (3 - m));
      assert Slot(p0, p1, k, n) == p1 + n - (3 - m);
    } else {
      WordAtBytes(mem, p0, n + k);
      assert Slot(p0, p1, k, n) == p0 + n + k;
      BytesOfFromBytes(LwrByte(w0, base, k, 0), LwrByte(w0, base, k, 1), LwrByte(w0, base, k, 2),
        LwrByte(w0, base, k, 3));
    }
  }

  // ---- the four instructions ----

  predicate Writable(pages: PageTable, va: Word) {
    AccessFault(pages, AlignDown(va), 4, true).None?
  }

  /** Page tables that differ only in their use and dirty bits. */
  predicate SameMapping(p: PageTable, q: PageTable) {
    |p| == |q| && forall n :: 0 <= n < |p| ==>
      p[n].(use := false, dirty := false) == q[n].(use := false, dirty := false)
  }

  lemma SameMappingAccess(p: PageTable, q: PageTable, va: Word)
    requires SameMapping(p, q)
    ensures Writable(p, va) == Writable(q, va)
    ensures Writable(p, va) ==>
              IsMapped(p, AlignDown(va)) && IsMapped(q, AlignDown(va)) &&
              Physical(p, AlignDown(va)) == Physical(q, AlignDown(va)) &&
              Physical(p, AlignDown(va)) % 4 == 0 && Physical(p, AlignDown(va)) + 4 <= MEMORY_SIZE
  {
    var d := AlignDown(va);
    AlignedDown(va);
    var n := d / PAGE_SIZE;
    if n < |p| {
      assert p[n].(use := false, dirty := false) == q[n].(use := false, dirty := false);
    }
    hide AlignDown;
    if Writable(p, va) {
      FaultFree(p, d, 4, true);
      AlignedOffset(d, 4);
      var o := d % PAGE_SIZE;
      QuotientIs(Physical(p, d), 4, 32 * p[n].physicalPage + o / 4, 0);
    }
  }

  lemma AlignedDown(va: Word)
    ensures AlignDown(va) % 4 == 0 && AlignDown(va) == va / 4 * 4 <= va
  {
    QuotientIs(va / 4 * 4, 4, va / 4, 0);
  }

  function Swr(base: Reg, r: Reg, off: Word): Instr { Instr(Store(SWR), base, r, 0, off) }
  function Swl(base: Reg, r: Reg, off: Word): Instr { Instr(Store(SWL), base, r, 0, off) }
  function Lwr(base: Reg, r: Reg, off: Word): Instr { Instr(Load(LWR), base, r, 0, off) }
  function Lwl(base: Reg, r: Reg, off: Word): Instr { Instr(Load(LWL), base, r, 0, off) }

  lemma PerformStore(c: Cpu, i: Instr)
    requires Boundary(c) && (i.op == Store(SWR) || i.op == Store(SWL)) && Writable(c.pages, Effective(c, i))
    ensures var va, k := AlignDown(Effective(c, i)), Effective(c, i) % 4;
            var o := Perform(c, i);
            IsMapped(c.pages, va) && Blocks(Physical(c.pages, va), Physical(c.pages, va), 0) &&
            var pa := Physical(c.pages, va);
            o.exception.None? && SameMapping(c.pages, o.cpu.pages) &&
            o.cpu.mem == Poke(c.mem, pa, 4,
              if i.op == Store(SWR) then SplitRight(WordAt(c.mem, pa), c.regs[i.rt], k)
              else SplitLeft(WordAt(c.mem, pa), c.regs[i.rt], k))
  {
    SameMappingAccess(c.pages, c.pages, Effective(c, i));
    var va := AlignDown(Effective(c, i));
    assert ReadMem(c.pages, c.mem, va, 4) == Loaded(WordAt(c.mem, Physical(c.pages, va)));
    var t := Touch(c.pages, va, false);
    assert SameMapping(c.pages, t);
    SameMappingAccess(c.pages, t, va);
  }

  lemma PerformStoreRegs(c: Cpu, i: Instr)
    requires Boundary(c) && i.op.Store? && Perform(c, i).exception.None?
    ensures Boundary(Perform(c, i).cpu) && Perform(c, i).cpu.regs[LOAD_REG] == 0
    ensures forall r :: 0 <= r < 32 ==> Perform(c, i).cpu.regs[r] == Landing(c, r)
  {
  }

  lemma PerformLoad(c: Cpu, i: Instr)
    requires Boundary(c) && (i.op == Load(LWR) || i.op == Load(LWL)) && Writable(c.pages, Effective(c, i))
    ensures var va, k := AlignDown(Effective(c, i)), Effective(c, i) % 4;
            var o := Perform(c, i);
            IsMapped(c.pages, va) && Blocks(Physical(c.pages, va), Physical(c.pages, va), 0) &&
            var w := WordAt(c.mem, Physical(c.pages, va));
            o.exception.None? && SameMapping(c.pages, o.cpu.pages) && o.cpu.mem == c.mem &&
            Boundary(o.cpu) && o.cpu.regs[LOAD_REG] == i.rt &&
            o.cpu.regs[LOAD_VALUE] ==
              if i.op == Load(LWR) then MergeRight(w, MergeBase(c, i.rt), k) else MergeLeft(w, MergeBase(c, i.rt), k)
  {
    hide MergeLeft, MergeRight, MergeBase, Effective;
    var ea := Effective(c, i);
    var va := AlignDown(ea);
    SameMappingAccess(c.pages, c.pages, ea);
    assert ReadMem(c.pages, c.mem, va, 4) == Loaded(WordAt(c.mem, Physical(c.pages, va)));
    hide AlignDown, ReadMem, WordAt, AccessFault;
    assert SameMapping(c.pages, Touch(c.pages, va, false));
  }

  lemma PerformLoadRegs(c: Cpu, i: Instr)
    requires Boundary(c) && i.op.Load? && Perform(c, i).exception.None?
    ensures Boundary(Perform(c, i).cpu)
    ensures forall r :: 0 <= r < 32 ==> Perform(c, i).cpu.regs[r] == Landing(c, r)
  {
  }

  /** The byte at `a + j` lives in slot `j` of the two blocks. */
  predicate InSlot(pages: PageTable, a: Word, j: int) {
    && IsMapped(pages, AlignDown(a)) && IsMapped(pages, AlignDown(Nth(a, 3))) && IsMapped(pages, Nth(a, j))
    && Physical(pages, Nth(a, j))
       == Slot(Physical(pages, AlignDown(a)), Physical(pages, AlignDown(Nth(a, 3))), a % 4, j)
  }

  /** The two aligned blocks an unaligned word at `a` touches are as `Blocks` says, even across a page or 2^32. */
  lemma BlocksOf(pages: PageTable, a: Word)
    requires Writable(pages, a) && Writable(pages, Nth(a, 3))
    ensures IsMapped(pages, AlignDown(a)) && IsMapped(pages, AlignDown(Nth(a, 3)))
    ensures Blocks(Physical(pages, AlignDown(a)), Physical(pages, AlignDown(Nth(a, 3))), a % 4)
    ensures Nth(a, 3) % 4 == (a % 4 + 3) % 4
    ensures forall j :: 0 <= j < 4 ==> InSlot(pages, a, j)
  {
    SameMappingAccess(pages, pages, a);
    SameMappingAccess(pages, pages, Nth(a, 3));
    NextBlock(a);
    if a % 4 != 0 {
      DifferentBlocks(pages, AlignDown(a), AlignDown(Nth(a, 3)));
    }
    forall j | 0 <= j < 4
      ensures InSlot(pages, a, j)
    {
      SlotOf(pages, a, j);
    }
  }

  /** Within a block, wrapping commutes with the offset. */
  lemma WrapNear(q: int, m: int)
    requires 0 <= q <= 0x4000_0000 && 0 <= m < 4
    ensures Wrap(4 * q + m) == Wrap(4 * q) + m && Wrap(4 * q) == if q == 0x4000_0000 then 0 else 4 * q
    ensures Wrap(4 * q) % 4 == 0
  {
    if q == 0x4000_0000 {
      QuotientIs(4 * q, TWO32, 1, 0);
      QuotientIs(4 * q + m, TWO32, 1, m);
    } else {
      QuotientIs(4 * q, TWO32, 0, 4 * q);
      QuotientIs(4 * q + m, TWO32, 0, 4 * q + m);
      QuotientIs(4 * q, 4, q, 0);
    }
  }

  /** Which block, and where in it, the byte `j` on from `a` lies. */
  lemma NthBlock(a: Word, j: int)
    requires 0 <= j < 4
    ensures var q, k := a / 4, a % 4;
            && 0 <= q < 0x4000_0000 && AlignDown(a) == 4 * q == Wrap(4 * q)
            && Nth(a, j) == (if k + j < 4 then 4 * q + (k + j) else Wrap(4 * (q + 1)) + (k + j - 4))
            && AlignDown(Nth(a, j)) == (if k + j < 4 then 4 * q else Wrap(4 * (q + 1)))
            && Nth(a, j) % 4 == if k + j < 4 then k + j else k + j - 4
  {
    hide Wrap;
    var q, k := a / 4, a % 4;
    assert a == 4 * q + k;
    WrapNear(q, 0);
    WrapNear(q, if k + j < 4 then k + j else 0);
    WrapNear(q + 1, if k + j < 4 then 0 else k + j - 4);
    var base := if k + j < 4 then 4 * q else Wrap(4 * (q + 1));
    var m := if k + j < 4 then k + j else k + j - 4;
    assert a as int + j == (if k + j < 4 then 4 * q + (k + j) else 4 * (q + 1) + (k + j - 4));
    QuotientIs(base + m, 4, base / 4, m);
  }

  /** The block of `a + 3`: the same one when `a` is aligned, else the next, modulo 2^32. */
  lemma NextBlock(a: Word)
    ensures Nth(a, 3) % 4 == (a % 4 + 3) % 4
    ensures AlignDown(Nth(a, 3)) == if a % 4 == 0 then a else Wrap(AlignDown(a) as int + 4)
  {
    NthBlock(a, 3);
    hide Wrap, Nth, AlignDown;
    assert a == 4 * (a / 4) + a % 4;
  }

  /** The next block is at another place of its page. */
  lemma NextPlace(x: Word)
    requires x % 4 == 0
    ensures Wrap(x as int + 4) % PAGE_SIZE != x % PAGE_SIZE
  {
    var y, o := x as int + 4, x % PAGE_SIZE;
    AlignedOffset(x, 4);
    if o == 124 {
      QuotientIs(y, PAGE_SIZE, x / PAGE_SIZE + 1, 0);
    } else {
      QuotientIs(y, PAGE_SIZE, x / PAGE_SIZE, o + 4);
    }
    if y < TWO32 {
      QuotientIs(y, TWO32, 0, y);
    } else {
      QuotientIs(x, PAGE_SIZE, 0x1ff_ffff, 124);
      QuotientIs(y, TWO32, 1, 0);
    }
  }

  lemma DifferentBlocks(pages: PageTable, x: Word, y: Word)
    requires IsMapped(pages, x) && IsMapped(pages, y) && x % 4 == 0 && y == Wrap(x as int + 4)
    ensures Physical(pages, x) != Physical(pages, y)
  {
    NextPlace(x);
    var m, n := pages[x / PAGE_SIZE].physicalPage, pages[y / PAGE_SIZE].physicalPage;
    QuotientIs(Physical(pages, x), PAGE_SIZE, m, x % PAGE_SIZE);
    QuotientIs(Physical(pages, y), PAGE_SIZE, n, y % PAGE_SIZE);
  }

  lemma NthSplit(a: Word, j: int)
    requires 0 <= j < 4
    ensures Nth(a, j) == if a % 4 + j < 4 then AlignDown(a) + (a % 4 + j) else AlignDown(Nth(a, 3)) + (a % 4 + j - 4)
  {
    NthBlock(a, j);
    NthBlock(a, 3);
    hide Wrap, Nth, AlignDown;
    assert a == 4 * (a / 4) + a % 4;
  }

  lemma SlotOf(pages: PageTable, a: Word, j: int)
    requires Writable(pages, a) && Writable(pages, Nth(a, 3)) && 0 <= j < 4
    ensures InSlot(pages, a, j)
  {
    SameMappingAccess(pages, pages, a);
    SameMappingAccess(pages, pages, Nth(a, 3));
    NthSplit(a, j);
    var k, x, y := a % 4, AlignDown(a), AlignDown(Nth(a, 3));
    assert x % 4 == 0 && y % 4 == 0;
    hide AlignDown, AccessFault, Nth;
    if k + j < 4 {
      AlignedWithinFrame(pages, x, 4, k + j);
    } else {
      AlignedWithinFrame(pages, y, 4, k + j - 4);
    }
  }

  lemma NextOffset(x: Word, y: Word)
    ensures Wrap(x + Wrap(y as int + 3)) == Nth(Wrap(x + y), 3)
  {
    WrapAdd(x, y as int + 3);
    WrapAdd(3, x + y);
    hide Wrap;
    assert x + (y as int + 3) == 3 + (x + y);
  }

  // ---- the pair of stores, the pair of loads, and the round trip ----

  /** Carry on with `i`, unless an exception has occurred. */
  function Then(o: Outcome, i: Instr): Outcome {
    if o.exception.Some? || !Boundary(o.cpu) then o else Perform(o.cpu, i)
  }

  /** An interrupt, or none, at an instruction boundary. */
  function Interrupted(o: Outcome, interrupt: bool): Outcome {
    if interrupt && Boundary(o.cpu) then o.(cpu := Commit(o.cpu)) else o
  }

  function Start(c: Cpu): Outcome { Outcome(c, None) }

  function StoreBoth(c: Cpu, base: Reg, src: Reg, off: Word): Outcome {
    Then(Then(Start(c), Swr(base, src, off)), Swl(base, src, Wrap(off as int + 3)))
  }

  function LoadBoth(c: Cpu, base: Reg, dst: Reg, off: Word, interrupt: bool): Outcome {
    Then(Interrupted(Then(Start(c), Lwr(base, dst, off)), interrupt), Lwl(base, dst, Wrap(off as int + 3)))
  }

  /** The memory after the two stores. */
  lemma StoresWord(c: Cpu, base: Reg, src: Reg, off: Word)
    requires Boundary(c)
    requires c.regs[LOAD_REG] == 0 || (c.regs[LOAD_REG] != base && c.regs[LOAD_REG] != src)
    requires Writable(c.pages, Wrap(c.regs[base] + off)) && Writable(c.pages, Nth(Wrap(c.regs[base] + off), 3))
    ensures var a := Wrap(c.regs[base] + off);
            var o := StoreBoth(c, base, src, off);
            o.exception.None? && Boundary(o.cpu) && SameMapping(c.pages, o.cpu.pages) &&
            o.cpu.regs[LOAD_REG] == 0 && o.cpu.regs[base] == c.regs[base] &&
            IsMapped(c.pages, AlignDown(a)) && IsMapped(c.pages, AlignDown(Nth(a, 3))) &&
            var p0, p1 := Physical(c.pages, AlignDown(a)), Physical(c.pages, AlignDown(Nth(a, 3)));
            Blocks(p0, p1, a % 4) &&
            o.cpu.mem == StoreLeft(StoreRight(c.mem, p0, a % 4, c.regs[src]), p1, a % 4, c.regs[src])
  {
    hide Perform, Poke, SplitLeft, SplitRight, Physical, IsMapped, SameMapping, AccessFault, WordAt, InSlot, AlignDown;
    hide Nth, Wrap;
    var a := Wrap(c.regs[base] + off);
    BlocksOf(c.pages, a);
    NextOffset(c.regs[base], off);
    var i1, i2 := Swr(base, src, off), Swl(base, src, Wrap(off as int + 3));
    PerformStore(c, i1);
    PerformStoreRegs(c, i1);
    var c1 := Perform(c, i1).cpu;
    SameMappingAccess(c.pages, c1.pages, Nth(a, 3));
    PerformStore(c1, i2);
    PerformStoreRegs(c1, i2);
    SameMappingTransitive(c.pages, c1.pages, Perform(c1, i2).cpu.pages);
  }

  lemma SameMappingTransitive(p: PageTable, q: PageTable, r: PageTable)
    requires SameMapping(p, q) && SameMapping(q, r)
    ensures SameMapping(p, r)
  {
    forall n | 0 <= n < |p|
      ensures p[n].(use := false, dirty := false) == r[n].(use := false, dirty := false)
    {
      assert q[n].(use := false, dirty := false) == r[n].(use := false, dirty := false);
    }
  }

  lemma LoadPairAt(c: Cpu, a: Word, v: Word, base: Word)
    requires Writable(c.pages, a) && Writable(c.pages, Nth(a, 3))
    requires forall j :: 0 <= j < 4 ==> HoldsByte(c, a, v, j)
    ensures IsMapped(c.pages, AlignDown(a)) && IsMapped(c.pages, AlignDown(Nth(a, 3)))
    ensures var p0, p1 := Physical(c.pages, AlignDown(a)), Physical(c.pages, AlignDown(Nth(a, 3)));
            Blocks(p0, p1, a % 4) && Nth(a, 3) % 4 == (a % 4 + 3) % 4 &&
            MergeLeft(WordAt(c.mem, p1), MergeRight(WordAt(c.mem, p0), base, a % 4), (a % 4 + 3) % 4) == v
  {
    hide ByteOf, MergeLeft, MergeRight, WordAt, AlignDown, Nth, AccessFault;
    BlocksOf(c.pages, a);
    var p0, p1 := Physical(c.pages, AlignDown(a)), Physical(c.pages, AlignDown(Nth(a, 3)));
    forall j | 0 <= j < 4
      ensures c.mem[Slot(p0, p1, a % 4, j)] == ByteOf(v, j)
    {
      assert HoldsByte(c, a, v, j) && InSlot(c.pages, a, j);
    }
    LoadPair(c.mem, p0, p1, a % 4, v, base);
  }

  /** The register after the two loads; an interrupt between them makes no difference. */
  lemma LoadsWord(c: Cpu, base: Reg, dst: Reg, off: Word, interrupt: bool, a: Word, v: Word)
    requires Boundary(c) && dst != 0 && dst != base && c.regs[LOAD_REG] == 0 && a == Wrap(c.regs[base] + off)
    requires Writable(c.pages, a) && Writable(c.pages, Nth(a, 3))
    requires forall j :: 0 <= j < 4 ==> HoldsByte(c, a, v, j)
    ensures var o := LoadBoth(c, base, dst, off, interrupt);
            o.exception.None? && o.cpu.mem == c.mem && Boundary(o.cpu) && Commit(o.cpu).regs[dst] == v
  {
    hide Perform, MergeLeft, MergeRight, Physical, IsMapped, SameMapping, AccessFault, WordAt, AlignDown, Nth, Wrap;
    hide HoldsByte, Commit, Blocks, Slot;
    LoadPairAt(c, a, v, MergeBase(c, dst));
    NextOffset(c.regs[base], off);
    var i1, i2 := Lwr(base, dst, off), Lwl(base, dst, Wrap(off as int + 3));
    PerformLoad(c, i1);
    PerformLoadRegs(c, i1);
    var c1 := Perform(c, i1).cpu;
    CommitOnlyTarget(c1, base);
    CommitOnlyTarget(c1, dst);
    CommitOnlyTarget(c1, LOAD_REG);
    CommitKeepsMemory(c1);
    var c2 := if interrupt then Commit(c1) else c1;
    SameMappingAccess(c.pages, c1.pages, Nth(a, 3));
    PerformLoad(c2, i2);
    CommitOnlyTarget(Perform(c2, i2).cpu, dst);
  }

  lemma CommitKeepsMemory(c: Cpu)
    requires Boundary(c)
    ensures Commit(c).mem == c.mem && Commit(c).pages == c.pages
  {
  }

  predicate HoldsByte(c: Cpu, a: Word, v: Word, j: int)
    requires 0 <= j < 4
  {
    IsMapped(c.pages, Nth(a, j)) && VirtualByte(c.pages, c.mem, Nth(a, j)) == ByteOf(v, j)
  }

  /**
   Store then reload, at any address: no fault, the same word comes back, and the only bytes of
   physical memory that change are those of the four virtual addresses.
   */
  lemma UnalignedRoundTrip(c: Cpu, base: Reg, src: Reg, dst: Reg, off: Word, interrupt: bool)
    requires Boundary(c) && dst != 0 && dst != base
    requires c.regs[LOAD_REG] == 0 || (c.regs[LOAD_REG] != base && c.regs[LOAD_REG] != src)
    requires Writable(c.pages, Wrap(c.regs[base] + off)) && Writable(c.pages, Nth(Wrap(c.regs[base] + off), 3))
    ensures var a := Wrap(c.regs[base] + off);
            var stored := StoreBoth(c, base, src, off);
            stored.exception.None? &&
            var o := LoadBoth(stored.cpu, base, dst, off, interrupt);
            o.exception.None? && o.cpu.mem == stored.cpu.mem && Boundary(o.cpu) &&
            Commit(o.cpu).regs[dst] == c.regs[src] &&
            (forall j :: 0 <= j < 4 ==> IsMapped(c.pages, Nth(a, j))) &&
            (forall q :: 0 <= q < MEMORY_SIZE && (forall j :: 0 <= j < 4 ==> q != Physical(c.pages, Nth(a, j))) ==>
               o.cpu.mem[q] == c.mem[q])
  {
    hide StoreBoth, LoadBoth, Physical, IsMapped, AccessFault, AlignDown, Nth, Wrap, Commit, HoldsByte;
    var a, v := Wrap(c.regs[base] + off), c.regs[src];
    StoresWord(c, base, src, off);
    var s := StoreBoth(c, base, src, off).cpu;
    StoredBytes(c, s, a, v);
    SameMappingAccess(c.pages, s.pages, a);
    SameMappingAccess(c.pages, s.pages, Nth(a, 3));
    LoadsWord(s, base, dst, off, interrupt, a, v);
  }

  /** The memory of `StoresWord`, read through the page table. */
  lemma StoredBytes(c: Cpu, s: Cpu, a: Word, v: Word)
    requires Writable(c.pages, a) && Writable(c.pages, Nth(a, 3)) && SameMapping(c.pages, s.pages)
    requires IsMapped(c.pages, AlignDown(a)) && IsMapped(c.pages, AlignDown(Nth(a, 3)))
    requires var p0, p1 := Physical(c.pages, AlignDown(a)), Physical(c.pages, AlignDown(Nth(a, 3)));
             Blocks(p0, p1, a % 4) && s.mem == StoreLeft(StoreRight(c.mem, p0, a % 4, v), p1, a % 4, v)
    ensures forall j :: 0 <= j < 4 ==> HoldsByte(s, a, v, j)
    ensures forall j :: 0 <= j < 4 ==> IsMapped(c.pages, Nth(a, j))
    ensures forall q :: 0 <= q < MEMORY_SIZE && (forall j :: 0 <= j < 4 ==> q != Physical(c.pages, Nth(a, j))) ==>
              s.mem[q] == c.mem[q]
  {
    hide StoreLeft, StoreRight, AccessFault, AlignDown, Nth, ByteOf, SameMapping;
    BlocksOf(c.pages, a);
    SameMappingAccess(c.pages, s.pages, a);
    SameMappingAccess(c.pages, s.pages, Nth(a, 3));
    BlocksOf(s.pages, a);
    var p0, p1 := Physical(c.pages, AlignDown(a)), Physical(c.pages, AlignDown(Nth(a, 3)));
    StorePair(c.mem, p0, p1, a % 4, v);
    forall j | 0 <= j < 4
      ensures HoldsByte(s, a, v, j) && IsMapped(c.pages, Nth(a, j))
      ensures Physical(c.pages, Nth(a, j)) == Slot(p0, p1, a % 4, j)
    {
      assert InSlot(c.pages, a, j) && InSlot(s.pages, a, j);
    }
  }
}
