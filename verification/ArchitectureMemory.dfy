/**
 Loads, stores and exceptions, read off the instruction word as in `Architecture`: byte by byte, at physical
 addresses.
 */
module ArchitectureMemory {
  import opened Words
  import opened PagedMemory
  import opened Isa
  import opened Decoding
  import opened Options
  import opened DelayedLoads
  import opened Architecture

  /** Which check an access fails, the alignment first, then the page table from bound to frame. */
  lemma FirstFault(pages: PageTable, va: Word, size: int, writing: bool)
    requires size == 1 || size == 2 || size == 4
    ensures var fault, vpn := AccessFault(pages, va, size, writing), va / 128;
            && (fault == Some(AddressErrorException) <==> va % size != 0 || vpn >= |pages|)
            && (fault == Some(PageFaultException) <==> va % size == 0 && vpn < |pages| && !pages[vpn].valid)
            && (fault == Some(ReadOnlyException) <==>
                  va % size == 0 && vpn < |pages| && pages[vpn].valid && pages[vpn].readOnly && writing)
            && (fault == Some(BusErrorException) <==>
                  && va % size == 0 && vpn < |pages| && pages[vpn].valid && !(pages[vpn].readOnly && writing)
                  && !(0 <= pages[vpn].physicalPage < 128))
            && (fault == None <==>
                  && va % size == 0 && vpn < |pages| && pages[vpn].valid && !(pages[vpn].readOnly && writing)
                  && 0 <= pages[vpn].physicalPage < 128)
  {
  }

  /**
   An instruction that cannot be fetched raises the exception of its first failing check, and nothing else
   happens.
   */
  lemma FetchFaults(c: Cpu)
    requires Boundary(c) && AccessFault(c.pages, c.regs[PC], 4, false).Some?
    ensures Traps(c, Step(c), AccessFault(c.pages, c.regs[PC], 4, false).value, c.regs[PC])
    ensures Step(c).cpu.pages == c.pages
  {
    hide AccessFault;
  }

  /** Where a load or store goes. */
  function Address(c: Cpu, raw: Word): Word
    requires Boundary(c)
  { (c.regs[Rs(raw)] + Imm(raw)) % TWO32 }

  lemma AddressIs(c: Cpu, raw: Word, i: Instr)
    requires Boundary(c) && i.rs == Rs(raw) && i.extra == Wrap(Imm(raw))
    ensures Effective(c, i) == Address(c, raw)
  {
    WrapAdd(c.regs[Rs(raw)], Imm(raw));
  }

  /** The physical address of a mapped one. */
  function Place(pages: PageTable, va: Word): int
    requires va / 128 < |pages|
  { 128 * pages[va / 128].physicalPage + va % 128 }

  /** LB, LH, LW, LBU and LHU (opcodes 32, 33, 35, 36 and 37). */
  lemma Loads(c: Cpu, raw: Word) returns (v: Word)
    requires Boundary(c) && Fetches(c, raw) && 32 <= Opcode(raw) <= 37 && Opcode(raw) != 34
    ensures var ea, size := Address(c, raw), if Opcode(raw) == 35 then 4 else if Opcode(raw) % 4 == 0 then 1 else 2;
            match AccessFault(Used(c), ea, size, false)
            case Some(e) => Traps(c, Step(c), e, ea) && Step(c).cpu.pages == Used(c)
            case None =>
              && Leaves(c, Step(c), 0, 0, Onward(c).(loadReg := Rt(raw), loadValue := v))
              && Step(c).cpu.mem == c.mem && ea / 128 < |c.pages|
              && Step(c).cpu.pages == Used(c)[ea / 128 := Used(c)[ea / 128].(use := true)]
              && var pa := Place(c.pages, ea);
              && 0 <= pa && pa + size <= 16384
              && ReadAs(Opcode(raw), c.mem[pa..pa + size], v)
  {
    hide Leaves, Traps, Step, Decode, Execute, LoadEffect, Fetches, AccessFault, ReadAs;
    v := 0;
    LoadExecuted(c, raw);
    var c1 := c.(pages := Used(c));
    LoadReads(c1, Opcode(raw), Rt(raw), Address(c, raw), Base(c, Rt(raw)));
    var e := Execute(c1, Decode(raw));
    if e.Trap? {
      Trapped(c, raw);
    } else {
      v := e.loadValue;
      Retired(c, raw, 0, 0, Onward(c).(loadReg := Rt(raw), loadValue := v));
    }
  }

  /** What a register has before LWL or LWR merges into it: a load pending on it counts. */
  function Base(c: Cpu, r: Reg): Word
    requires Boundary(c)
  { if c.regs[37] == r then c.regs[38] else c.regs[r] }

  lemma LoadExecuted(c: Cpu, raw: Word)
    requires Boundary(c) && Fetches(c, raw) && 32 <= Opcode(raw) <= 38
    ensures var c1 := c.(pages := Used(c));
            && Boundary(c1)
            && Execute(c1, Decode(raw))
               == LoadEffect(c1, LoadOf(Opcode(raw)), Rt(raw), Address(c, raw), Base(c, Rt(raw)))
  {
    hide Step, Decode, EncodingOf, HasEncoding, Fetches, LoadEffect;
    Fetched(c, raw);
    LoadEncoded(raw);
    Decoded(raw, Load(LoadOf(Opcode(raw))));
    AddressIs(c.(pages := Used(c)), raw, Decode(raw));
  }

  function LoadOf(opcode: int): LoadOp {
    match opcode
    case 32 => LB case 33 => LH case 34 => LWL case 35 => LW case 36 => LBU case 37 => LHU case _ => LWR
  }

  lemma LoadEncoded(raw: Word)
    requires 32 <= Opcode(raw) <= 38
    ensures HasEncoding(raw, EncodingOf(Load(LoadOf(Opcode(raw)))))
  {
  }

  /** The word that some bytes of memory load as: lowest byte first, sign-extended by LB and LH. */
  predicate ReadAs(opcode: int, bytes: seq<Byte>, v: Word) {
    match |bytes|
    case 1 => if opcode == 32 && bytes[0] >= 128 then Signed(v) == bytes[0] as int - 256 else v == bytes[0]
    case 2 =>
      var n := bytes[0] as int + 256 * (bytes[1] as int);
      if opcode == 33 && n >= 32768 then Signed(v) == n - 65536 else v == n
    case 4 => v == bytes[0] as int + 256 * (bytes[1] as int) + 65536 * (bytes[2] as int) + 16777216 * (bytes[3] as int)
    case _ => false
  }

  lemma LoadReads(c: Cpu, opcode: int, rt: Reg, ea: Word, base: Word)
    requires Boundary(c) && 32 <= opcode <= 37 && opcode != 34
    ensures var op, size := LoadOf(opcode), if opcode == 35 then 4 else if opcode % 4 == 0 then 1 else 2;
            var e := LoadEffect(c, op, rt, ea, base);
            match AccessFault(c.pages, ea, size, false)
            case Some(f) => e == Trap(f, ea, c.pages)
            case None =>
              && e.Retire? && ea / 128 < |c.pages| && 0 <= Place(c.pages, ea) && Place(c.pages, ea) + size <= 16384
              && ReadAs(opcode, c.mem[Place(c.pages, ea)..Place(c.pages, ea) + size], e.loadValue)
              && e == Retire(c.regs, c.mem, c.pages[ea / 128 := c.pages[ea / 128].(use := true)], Sequential(c), rt,
                             e.loadValue)
  {
    var size := LoadSize(LoadOf(opcode));
    PlaceInside(c.pages, ea, size, false);
    hide AccessFault;
    if AccessFault(c.pages, ea, size, false).None? {
      var pa := Place(c.pages, ea);
      var bytes := c.mem[pa..pa + size];
      ValueReads(opcode, bytes, base, ea % 4);
    }
  }

  /** What `ReadMem` makes of the bytes, extended by the operation. */
  lemma ValueReads(opcode: int, bytes: seq<Byte>, base: Word, k: int)
    requires 32 <= opcode <= 37 && opcode != 34 && |bytes| == LoadSize(LoadOf(opcode)) && 0 <= k < 4
    ensures var raw :=
              if |bytes| == 1 then SignExtend8(bytes[0])
              else if |bytes| == 2 then FromBytes(bytes[0], bytes[1], 0, 0)
              else FromBytes(bytes[0], bytes[1], bytes[2], bytes[3]);
            ReadAs(opcode, bytes, LoadedValue(LoadOf(opcode), raw, base, k))
  {
    if |bytes| == 1 {
      QuotientIs(SignExtend8(bytes[0]), 0x100, if bytes[0] < 0x80 then 0 else 0xff_ffff, bytes[0]);
    } else if |bytes| == 2 {
      var n := FromBytes(bytes[0], bytes[1], 0, 0);
      QuotientIs(n, 0x1_0000, 0, n);
    }
  }

  lemma PlaceInside(pages: PageTable, ea: Word, size: int, writing: bool)
    requires size == 1 || size == 2 || size == 4
    ensures AccessFault(pages, ea, size, writing).None? ==>
              && ea / 128 < |pages| && 0 <= Place(pages, ea)
              && IsMapped(pages, ea) && Place(pages, ea) == Physical(pages, ea) && Place(pages, ea) + size <= 16384
  {
    if AccessFault(pages, ea, size, writing).None? { FaultFree(pages, ea, size, writing); }
  }

  /** An instruction can be fetched exactly when no check fails, and is then the word in memory. */
  lemma FetchedWord(c: Cpu, raw: Word)
    requires Boundary(c)
    ensures Fetches(c, raw) <==>
              && AccessFault(c.pages, c.regs[34], 4, false) == None && c.regs[34] / 128 < |c.pages|
              && var pa := Place(c.pages, c.regs[34]);
              && 0 <= pa && pa + 4 <= 16384 && ReadAs(35, c.mem[pa..pa + 4], raw)
  {
    PlaceInside(c.pages, c.regs[34], 4, false);
    hide AccessFault;
  }

  // ---- unaligned loads ----

  /**
   LWL (opcode 34): the byte addressed becomes the top byte of the register, and the bytes below it in the same
   aligned word follow it downwards; the other bytes stay.
   LWR (opcode 38): the byte addressed becomes the lowest byte, and the bytes above it follow it upwards.
   */
  lemma UnalignedLoads(c: Cpu, raw: Word) returns (v: Word)
    requires Boundary(c) && Fetches(c, raw) && (Opcode(raw) == 34 || Opcode(raw) == 38)
    ensures var ea := Address(c, raw);
            var word := ea - ea % 4;
            match AccessFault(Used(c), word, 4, false)
            case Some(e) => Traps(c, Step(c), e, word) && Step(c).cpu.pages == Used(c)
            case None =>
              && Leaves(c, Step(c), 0, 0, Onward(c).(loadReg := Rt(raw), loadValue := v))
              && Step(c).cpu.mem == c.mem && word / 128 < |c.pages|
              && Step(c).cpu.pages == Used(c)[word / 128 := Used(c)[word / 128].(use := true)]
              && 0 <= Place(c.pages, word) && Place(c.pages, word) + 4 <= 16384
              && Merged(Opcode(raw), c.mem[Place(c.pages, word)..Place(c.pages, word) + 4], ea % 4, Base(c, Rt(raw)), v)
  {
    hide Leaves, Traps, Step, Decode, Execute, LoadEffect, Fetches, AccessFault, Merged;
    v := 0;
    LoadExecuted(c, raw);
    var c1 := c.(pages := Used(c));
    UnalignedReads(c1, Opcode(raw), Rt(raw), Address(c, raw), Base(c, Rt(raw)));
    var e := Execute(c1, Decode(raw));
    if e.Trap? {
      Trapped(c, raw);
    } else {
      v := e.loadValue;
      Retired(c, raw, 0, 0, Onward(c).(loadReg := Rt(raw), loadValue := v));
    }
  }

  /** A register merged with the bytes of an aligned word, from offset `k` down, or up. */
  predicate Merged(opcode: int, bytes: seq<Byte>, k: int, base: Word, v: Word)
    requires |bytes| == 4 && 0 <= k < 4
  {
    forall n :: 0 <= n < 4 ==>
      ByteOf(v, n) ==
        if opcode == 34 then if n + k >= 3 then bytes[n + k - 3] else ByteOf(base, n)
        else if n + k <= 3 then bytes[n + k] else ByteOf(base, n)
  }

  lemma UnalignedReads(c: Cpu, opcode: int, rt: Reg, ea: Word, base: Word)
    requires Boundary(c) && (opcode == 34 || opcode == 38)
    ensures var e, word := LoadEffect(c, LoadOf(opcode), rt, ea, base), ea - ea % 4;
            match AccessFault(c.pages, word, 4, false)
            case Some(f) => e == Trap(f, word, c.pages)
            case None =>
              && e.Retire? && word / 128 < |c.pages| && 0 <= Place(c.pages, word) && Place(c.pages, word) + 4 <= 16384
              && Merged(opcode, c.mem[Place(c.pages, word)..Place(c.pages, word) + 4], ea % 4, base, e.loadValue)
              && e == Retire(c.regs, c.mem, c.pages[word / 128 := c.pages[word / 128].(use := true)], Sequential(c), rt,
                             e.loadValue)
  {
    hide AccessFault, FromBytes, ByteOf, MergeLeft, MergeRight, Merged, AlignDown, Touch, Physical, IsMapped, Place;
    var word := ea - ea % 4;
    AlignedBelow(ea);
    UsedOnce(c.pages, word);
    PlaceInside(c.pages, word, 4, false);
    if AccessFault(c.pages, word, 4, false).None? {
      var pa := Place(c.pages, word);
      var bytes := c.mem[pa..pa + 4];
      MergedBytes(opcode, bytes, ea % 4, base);
    }
  }

  lemma AlignedBelow(ea: Word)
    ensures AlignDown(ea) == ea - ea % 4
  {
  }

  lemma UsedOnce(pages: PageTable, va: Word)
    ensures IsMapped(pages, va) ==>
              va / 128 < |pages| && Touch(pages, va, false) == pages[va / 128 := pages[va / 128].(use := true)]
  {
  }

  lemma MergedBytes(opcode: int, bytes: seq<Byte>, k: int, base: Word)
    requires |bytes| == 4 && 0 <= k < 4
    ensures var w := FromBytes(bytes[0], bytes[1], bytes[2], bytes[3]);
            Merged(opcode, bytes, k, base, if opcode == 34 then MergeLeft(w, base, k) else MergeRight(w, base, k))
  {
    hide ByteOf, FromBytes;
    var w := FromBytes(bytes[0], bytes[1], bytes[2], bytes[3]);
    BytesOfFromBytes(bytes[0], bytes[1], bytes[2], bytes[3]);
    BytesOfFromBytes(LwlByte(w, base, k, 0), LwlByte(w, base, k, 1), LwlByte(w, base, k, 2), LwlByte(w, base, k, 3));
    BytesOfFromBytes(LwrByte(w, base, k, 0), LwrByte(w, base, k, 1), LwrByte(w, base, k, 2), LwrByte(w, base, k, 3));
  }

  // ---- stores ----

  /** SB, SH and SW (opcodes 40, 41 and 43): which bytes of memory become which bytes of the register. */
  lemma Stores(c: Cpu, raw: Word)
    requires Boundary(c) && Fetches(c, raw) && 40 <= Opcode(raw) <= 43 && Opcode(raw) != 42
    ensures var ea, size := Address(c, raw), if Opcode(raw) == 40 then 1 else if Opcode(raw) == 41 then 2 else 4;
            match AccessFault(Used(c), ea, size, true)
            case Some(e) => Traps(c, Step(c), e, ea)
            case None =>
              && Leaves(c, Step(c), 0, 0, Onward(c)) && ea / 128 < |c.pages|
              && Step(c).cpu.pages == Used(c)[ea / 128 := Used(c)[ea / 128].(use := true, dirty := true)]
              && 0 <= Place(c.pages, ea) && Place(c.pages, ea) + size <= 16384
              && forall q :: 0 <= q < 16384 ==>
                   var n := q - Place(c.pages, ea);
                   Step(c).cpu.mem[q] == if 0 <= n < size then ByteOf(c.regs[Rt(raw)], n) else c.mem[q]
  {
    hide Leaves, Traps, Step, Decode, EncodingOf, HasEncoding, Fetches, AccessFault, StoreEffect, ByteOf;
    Fetched(c, raw);
    StoreEncoded(raw);
    Decoded(raw, Store(StoreOf(Opcode(raw))));
    var c1, i := c.(pages := Used(c)), Decode(raw);
    AddressIs(c1, raw, i);
    AlignedWrites(c1, Opcode(raw), c.regs[Rt(raw)], Address(c, raw));
    if Execute(c1, i).Trap? {
      Trapped(c, raw);
    } else {
      Retired(c, raw, 0, 0, Onward(c));
    }
  }

  /**
   SWL (opcode 42): the top byte of the register goes to the byte addressed, and the next lower ones to the bytes
   below it in the same aligned word.  SWR (opcode 46): the lowest byte goes there, and the next higher ones to the
   bytes above.  The aligned word is read first.
   */
  lemma UnalignedStores(c: Cpu, raw: Word)
    requires Boundary(c) && Fetches(c, raw) && (Opcode(raw) == 42 || Opcode(raw) == 46)
    ensures var ea := Address(c, raw);
            var word, k, value := ea - ea % 4, ea % 4, c.regs[Rt(raw)];
            var reading, writing := AccessFault(Used(c), word, 4, false), AccessFault(Used(c), word, 4, true);
            if reading.Some? then Traps(c, Step(c), reading.value, word)
            else if writing.Some? then Traps(c, Step(c), writing.value, word)
            else
              && Leaves(c, Step(c), 0, 0, Onward(c)) && word / 128 < |c.pages|
              && Step(c).cpu.pages == Used(c)[word / 128 := Used(c)[word / 128].(use := true, dirty := true)]
              && 0 <= Place(c.pages, word) && Place(c.pages, word) + 4 <= 16384
              && Split(Opcode(raw), c.mem, Step(c).cpu.mem, Place(c.pages, word), k, value)
  {
    hide Leaves, Traps, Step, Decode, EncodingOf, HasEncoding, Fetches, AccessFault, StoreEffect, Split;
    Fetched(c, raw);
    StoreEncoded(raw);
    Decoded(raw, Store(StoreOf(Opcode(raw))));
    var c1, i := c.(pages := Used(c)), Decode(raw);
    AddressIs(c1, raw, i);
    UnalignedWrites(c1, Opcode(raw), c.regs[Rt(raw)], Address(c, raw));
    if Execute(c1, i).Trap? {
      Trapped(c, raw);
    } else {
      Retired(c, raw, 0, 0, Onward(c));
    }
  }

  function StoreOf(opcode: int): StoreOp {
    match opcode
    case 40 => SB case 41 => SH case 42 => SWL case 43 => SW case _ => SWR
  }

  lemma StoreEncoded(raw: Word)
    requires 40 <= Opcode(raw) <= 43 || Opcode(raw) == 46
    ensures HasEncoding(raw, EncodingOf(Store(StoreOf(Opcode(raw)))))
  {
  }

  lemma AlignedWrites(c: Cpu, opcode: int, value: Word, ea: Word)
    requires Boundary(c) && 40 <= opcode <= 43 && opcode != 42
    ensures var e, size := StoreEffect(c, StoreOf(opcode), value, ea), StoreSize(StoreOf(opcode));
            match AccessFault(c.pages, ea, size, true)
            case Some(f) => e == Trap(f, ea, c.pages)
            case None =>
              && e.Retire? && ea / 128 < |c.pages| && 0 <= Place(c.pages, ea) && Place(c.pages, ea) + size <= 16384
              && (forall q :: 0 <= q < 16384 ==>
                    var n := q - Place(c.pages, ea);
                    e.mem[q] == if 0 <= n < size then ByteOf(value, n) else c.mem[q])
              && e == Retire(c.regs, e.mem, c.pages[ea / 128 := c.pages[ea / 128].(use := true, dirty := true)],
                             Sequential(c), 0, 0)
  {
    PlaceInside(c.pages, ea, StoreSize(StoreOf(opcode)), true);
    hide AccessFault, ByteOf;
  }

  /** An aligned word at `pa` after SWL or SWR has stored into it, from offset `k` down, or up. */
  predicate Split(opcode: int, mem: Memory, mem': Memory, pa: int, k: int, value: Word)
    requires 0 <= k < 4
  {
    forall q :: 0 <= q < 16384 ==>
      var n := q - pa;
      mem'[q] ==
        if opcode == 42 && 0 <= n <= k then ByteOf(value, n + 3 - k)
        else if opcode == 46 && k <= n < 4 then ByteOf(value, n - k)
        else mem[q]
  }

  /** Setting a use bit makes no difference to a check. */
  lemma UseUnchecked(pages: PageTable, va: Word, size: int, writing: bool)
    requires IsMapped(pages, va)
    ensures AccessFault(Touch(pages, va, false), va, size, writing) == AccessFault(pages, va, size, writing)
    ensures IsMapped(Touch(pages, va, false), va)
    ensures Physical(Touch(pages, va, false), va) == Physical(pages, va)
  {
  }

  lemma UnalignedWrites(c: Cpu, opcode: int, value: Word, ea: Word)
    requires Boundary(c) && (opcode == 42 || opcode == 46)
    ensures var e, word := StoreEffect(c, StoreOf(opcode), value, ea), ea - ea % 4;
            var reading, writing := AccessFault(c.pages, word, 4, false), AccessFault(c.pages, word, 4, true);
            if reading.Some? then e.Trap? && e.exception == reading.value && e.badVAddr == word
            else if writing.Some? then e.Trap? && e.exception == writing.value && e.badVAddr == word
            else
              && e.Retire? && word / 128 < |c.pages| && 0 <= Place(c.pages, word) && Place(c.pages, word) + 4 <= 16384
              && Split(opcode, c.mem, e.mem, Place(c.pages, word), ea % 4, value)
              && e == Retire(c.regs, e.mem, c.pages[word / 128 := c.pages[word / 128].(use := true, dirty := true)],
                             Sequential(c), 0, 0)
  {
    hide AccessFault, ByteOf, FromBytes, SplitLeft, SplitRight, Split, Poke, AlignDown, Touch, Physical, IsMapped;
    hide Place;
    var word, k := ea - ea % 4, ea % 4;
    AlignedBelow(ea);
    PlaceInside(c.pages, word, 4, false);
    if AccessFault(c.pages, word, 4, false).None? {
      UseUnchecked(c.pages, word, 4, true);
      if AccessFault(c.pages, word, 4, true).None? {
        SplitWord(c.mem, Place(c.pages, word), opcode, value, k);
        UsedAgain(c.pages, word);
      }
    }
  }

  lemma UsedAgain(pages: PageTable, va: Word)
    requires IsMapped(pages, va) && IsMapped(Touch(pages, va, false), va)
    ensures va / 128 < |pages|
    ensures Touch(Touch(pages, va, false), va, true) == pages[va / 128 := pages[va / 128].(use := true, dirty := true)]
  {
  }

  lemma SplitWord(mem: Memory, pa: int, opcode: int, value: Word, k: int)
    requires 0 <= pa <= 16380 && 0 <= k < 4 && (opcode == 42 || opcode == 46)
    ensures var raw := FromBytes(mem[pa], mem[pa + 1], mem[pa + 2], mem[pa + 3]);
            var word := if opcode == 42 then SplitLeft(raw, value, k) else SplitRight(raw, value, k);
            Split(opcode, mem, Poke(mem, pa, 4, word), pa, k, value)
  {
    hide ByteOf, FromBytes, SplitLeft, SplitRight, Poke;
    SplitBytes(mem[pa], mem[pa + 1], mem[pa + 2], mem[pa + 3], value, k);
  }

  lemma SplitBytes(b0: Byte, b1: Byte, b2: Byte, b3: Byte, reg: Word, k: int)
    requires 0 <= k < 4
    ensures forall n :: 0 <= n < 4 ==>
              var b, w := [b0, b1, b2, b3][n], FromBytes(b0, b1, b2, b3);
              && ByteOf(SplitLeft(w, reg, k), n) == (if n <= k then ByteOf(reg, n + 3 - k) else b)
              && ByteOf(SplitRight(w, reg, k), n) == (if n >= k then ByteOf(reg, n - k) else b)
  {
    hide ByteOf, FromBytes;
    var w := FromBytes(b0, b1, b2, b3);
    BytesOfFromBytes(b0, b1, b2, b3);
    BytesOfFromBytes(SwlByte(w, reg, k, 0), SwlByte(w, reg, k, 1), SwlByte(w, reg, k, 2), SwlByte(w, reg, k, 3));
    BytesOfFromBytes(SwrByte(w, reg, k, 0), SwrByte(w, reg, k, 1), SwrByte(w, reg, k, 2), SwrByte(w, reg, k, 3));
  }

  // ---- exceptions ----

  /** SYSCALL (function 12) traps to the kernel; a word that encodes nothing is an illegal instruction. */
  lemma Exceptions(c: Cpu, raw: Word)
    requires Boundary(c) && Fetches(c, raw)
    ensures Opcode(raw) == 0 && FunctCode(raw) == 12 ==> Traps(c, Step(c), SyscallException, 0)
    ensures !IsDefined(raw) ==> Traps(c, Step(c), IllegalInstrException, 0)
  {
    hide Traps, Step, Fetches, Decode, EncodingOf, HasEncoding;
    Fetched(c, raw);
    OnlyDefined(raw);
    var op := Decode(raw).op;
    if op.SYSCALL? || op.UNIMP? || op.RES? { Trapped(c, raw); }
  }

  lemma OnlyDefined(raw: Word)
    ensures Opcode(raw) == 0 && FunctCode(raw) == 12 ==> Decode(raw).op == SYSCALL
    ensures Decode(raw).op.UNIMP? || Decode(raw).op.RES? || IsDefined(raw)
  {
    hide Decode;
    DecodesExactly(raw, SYSCALL);
    var op := Decode(raw).op;
    if !op.UNIMP? && !op.RES? {
      DecodesExactly(raw, op);
      EncodedIsDefined(raw, op);
    }
  }

  lemma EncodedIsDefined(raw: Word, op: Op)
    requires HasEncoding(raw, EncodingOf(op))
    ensures IsDefined(raw)
  {
  }

  predicate IsDefined(raw: Word) {
    var n, f := Opcode(raw), FunctCode(raw);
    || 2 <= n <= 15 || 32 <= n <= 38 || 40 <= n <= 43 || n == 46
    || (n == 1 && (Rt(raw) % 16 == 0 || Rt(raw) % 16 == 1))
    || (n == 0 && f != 1 && f != 5 && (f <= 9 || f == 12 || 16 <= f <= 19 || 24 <= f <= 27))
    || (n == 0 && (32 <= f <= 39 || f == 42 || f == 43))
  }
}
