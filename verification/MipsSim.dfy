/**
 The simulator's code (machine/mipssim.cc, machine/machine.cc, machine/translate.cc): registers, memory
 and page table updated in place, overflow by sign bits, unaligned words by shifts and masks.
 Every method is proved to do what the reference semantics of `Isa` says.
 */
module MipsSim {
  import opened Words
  import opened Bitwise
  import opened PagedMemory
  import opened Isa
  import opened Decoding
  import DelayedLoads
  import Multiply
  import opened Options

  // ---- unaligned words by shifts and masks, with `n == 3 - byte`; a left shift drops the top bits,
  // ---- and or-ing disjoint fields is adding

  function LwlCode(value: Word, base: Word, n: int): Word {
    if n == 0 then value
    else if n == 1 then base % 0x100 + value % 0x100_0000 * 0x100
    else if n == 2 then base % 0x1_0000 + value % 0x1_0000 * 0x1_0000
    else base % 0x100_0000 + value % 0x100 * 0x100_0000
  }

  function LwrCode(value: Word, base: Word, n: int): Word {
    if n == 0 then base - base % 0x100 + value / 0x100_0000
    else if n == 1 then base - base % 0x1_0000 + value / 0x1_0000
    else if n == 2 then base - base % 0x100_0000 + value / 0x100
    else value
  }

  function SwlCode(value: Word, reg: Word, n: int): Word {
    if n == 0 then reg
    else if n == 1 then value - value % 0x100_0000 + reg / 0x100
    else if n == 2 then value - value % 0x1_0000 + reg / 0x1_0000
    else value - value % 0x100 + reg / 0x100_0000
  }

  function SwrCode(value: Word, reg: Word, n: int): Word {
    if n == 0 then value % 0x100_0000 + reg % 0x100 * 0x100_0000
    else if n == 1 then value % 0x1_0000 + reg % 0x1_0000 * 0x1_0000
    else if n == 2 then value % 0x100 + reg % 0x100_0000 * 0x100
    else reg
  }

  lemma WordFields(w: Word)
    ensures w % 0x100 == ByteOf(w, 0)
    ensures w % 0x1_0000 == ByteOf(w, 0) + 0x100 * ByteOf(w, 1)
    ensures w % 0x100_0000 == ByteOf(w, 0) + 0x100 * ByteOf(w, 1) + 0x1_0000 * ByteOf(w, 2)
    ensures w / 0x100 == ByteOf(w, 1) + 0x100 * ByteOf(w, 2) + 0x1_0000 * ByteOf(w, 3)
    ensures w / 0x1_0000 == ByteOf(w, 2) + 0x100 * ByteOf(w, 3)
    ensures w / 0x100_0000 == ByteOf(w, 3)
    ensures w == ByteOf(w, 0) + 0x100 * ByteOf(w, 1) + 0x1_0000 * ByteOf(w, 2) + 0x100_0000 * ByteOf(w, 3)
  {
    BytesOfWord(w);
    var b0, b1, b2, b3 := ByteOf(w, 0), ByteOf(w, 1), ByteOf(w, 2), ByteOf(w, 3);
    FieldsOfBytes(b0, b1, b2, b3);
  }

  lemma FieldsOfBytes(b0: Byte, b1: Byte, b2: Byte, b3: Byte)
    ensures var w := FromBytes(b0, b1, b2, b3);
            w % 0x100 == b0 && w % 0x1_0000 == b0 + 0x100 * b1 &&
            w % 0x100_0000 == b0 + 0x100 * b1 + 0x1_0000 * b2 &&
            w / 0x100 == b1 + 0x100 * b2 + 0x1_0000 * b3 &&
            w / 0x1_0000 == b2 + 0x100 * b3 && w / 0x100_0000 == b3
  {
    var w := FromBytes(b0, b1, b2, b3);
    QuotientIs(w, 0x100, b1 + 0x100 * b2 + 0x1_0000 * b3, b0);
    QuotientIs(w, 0x1_0000, b2 + 0x100 * b3, b0 + 0x100 * b1);
    QuotientIs(w, 0x100_0000, b3, b0 + 0x100 * b1 + 0x1_0000 * b2);
  }

  lemma LeftLoadAgrees(value: Word, base: Word, k: int)
    requires 0 <= k < 4
    ensures LwlCode(value, base, 3 - k) == MergeLeft(value, base, k)
  {
    WordFields(value);
    WordFields(base);
    hide ByteOf;
    if k == 0 {} else if k == 1 {} else if k == 2 {} else {}
  }

  lemma RightLoadAgrees(value: Word, base: Word, k: int)
    requires 0 <= k < 4
    ensures LwrCode(value, base, 3 - k) == MergeRight(value, base, k)
  {
    WordFields(value);
    WordFields(base);
    hide ByteOf;
    if k == 0 {} else if k == 1 {} else if k == 2 {} else {}
  }

  lemma LeftStoreAgrees(value: Word, reg: Word, k: int)
    requires 0 <= k < 4
    ensures SwlCode(value, reg, 3 - k) == SplitLeft(value, reg, k)
  {
    WordFields(value);
    WordFields(reg);
    hide ByteOf;
    if k == 0 {} else if k == 1 {} else if k == 2 {} else {}
  }

  lemma RightStoreAgrees(value: Word, reg: Word, k: int)
    requires 0 <= k < 4
    ensures SwrCode(value, reg, 3 - k) == SplitRight(value, reg, k)
  {
    WordFields(value);
    WordFields(reg);
    hide ByteOf;
    if k == 0 {} else if k == 1 {} else if k == 2 {} else {}
  }

  /** Overflow by sign bits, as `OP_ADD` and `OP_SUB` test it. */
  lemma SignBitOverflow(a: Word, b: Word)
    ensures var sum := Wrap(a + b);
            ((a >= TWO31) == (b >= TWO31) && (a >= TWO31) != (sum >= TWO31)) <==> !IsInt32(Signed(a) + Signed(b))
    ensures var diff := Wrap(a as int - b);
            ((a >= TWO31) != (b >= TWO31) && (a >= TWO31) != (diff >= TWO31)) <==> !IsInt32(Signed(a) - Signed(b))
  {
  }

  lemma HalvesOfPair(hi: Word, lo: Word, n: int)
    requires Multiply.SignedPair(hi, lo) == n || Multiply.UnsignedPair(hi, lo) == n
    ensures Halves(n) == (hi, lo)
  {
    var u := Multiply.UnsignedPair(hi, lo);
    assert u == n || u == n + TWO64;
    assert 0 <= u < TWO64 && n % TWO64 == u;
  }

  /** Register-register operations; overflow shows in the sign bits of operands and wrapped result. */
  method RegCode(op: RegOp, a: Word, b: Word, shamt: Word) returns (overflow: bool, result: Word)
    ensures RegResult(op, a, b, shamt) == if overflow then None else Some(result)
  {
    overflow := false;
    match op {
      case ADD =>
        SignBitOverflow(a, b);
        result := Wrap(a + b);
        overflow := (a >= TWO31) == (b >= TWO31) && (a >= TWO31) != (result >= TWO31);
      case SUB =>
        SignBitOverflow(a, b);
        result := Wrap(a as int - b);
        overflow := (a >= TWO31) != (b >= TWO31) && (a >= TWO31) != (result >= TWO31);
      case ADDU => result := Wrap(a + b);
      case SUBU => result := Wrap(a as int - b);
      case AND => result := BitAnd(a, b);
      case OR => result := BitOr(a, b);
      case XOR => result := BitXor(a, b);
      case NOR => result := BitNot(BitOr(a, b));
      case SLT => if Signed(a) < Signed(b) { result := 1; } else { result := 0; }
      case SLTU => if a < b { result := 1; } else { result := 0; }
      case SLL => result := ShiftLeft(b, shamt);
      case SLLV => result := ShiftLeft(b, a % 32);
      case SRA => result := ShiftRightArithmetic(b, shamt);
      case SRAV => result := ShiftRightArithmetic(b, a % 32);
      case SRL => result := ShiftRightArithmetic(b, shamt);
      case SRLV => result := ShiftRightArithmetic(b, a % 32);
    }
  }

  method ImmCode(op: ImmOp, a: Word, imm: Word) returns (overflow: bool, result: Word)
    ensures ImmResult(op, a, imm) == if overflow then None else Some(result)
  {
    overflow := false;
    match op {
      case ADDI =>
        SignBitOverflow(imm, a);
        result := Wrap(a + imm);
        overflow := (a >= TWO31) == (imm >= TWO31) && (imm >= TWO31) != (result >= TWO31);
      case ADDIU => result := Wrap(a + imm);
      case ANDI => result := BitAnd(a, imm % 0x1_0000);
      case ORI => result := BitOr(a, imm % 0x1_0000);
      case XORI => result := BitXor(a, imm % 0x1_0000);
      case SLTI => if Signed(a) < Signed(imm) { result := 1; } else { result := 0; }
      case SLTIU => if a < imm { result := 1; } else { result := 0; }
      case LUI => result := Wrap(imm * 0x1_0000);
    }
  }

  /**
   When the code's signed shifts are the architecture's logical right shifts, by a constant or by a
   register: never for a negative value, unless they shift by nothing.
   */
  lemma SrlIsLogical(a: Word, b: Word, shamt: Word)
    ensures shamt < 32 ==>
              (RegResult(SRL, a, b, shamt) == Some(ShiftRightLogical(b, shamt)) <==> b < TWO31 || shamt == 0)
    ensures RegResult(SRLV, a, b, shamt) == Some(ShiftRightLogical(b, a % 32)) <==> b < TWO31 || a % 32 == 0
  {
    hide ShiftLeft, BitAnd, BitOr, BitXor, BitNot, ShiftRightArithmetic, ShiftRightLogical;
    if shamt < 32 {
      ShiftsAgree(b, shamt);
    }
    ShiftsAgree(b, a % 32);
  }

  lemma ShiftsAgree(b: Word, k: nat)
    ensures ShiftRightArithmetic(b, k) == ShiftRightLogical(b, k) <==> b < TWO31 || k == 0
  {
    if b >= TWO31 && k > 0 {
      var p := Pow2(k);
      assert p >= 2 by { assert Pow2(k) == 2 * Pow2(k - 1); }
      NegativeQuotient(b, p);
    }
  }

  lemma NegativeQuotient(b: Word, p: int)
    requires b >= TWO31 && p >= 2
    ensures Wrap((b - TWO32) / p) != Wrap(b / p)
  {
    hide Wrap;
    BelowZero(b - TWO32, p);
    AtMostHalf(b, p);
    WrapBelow((b - TWO32) / p, b / p);
  }

  lemma BelowZero(n: int, p: int)
    requires -TWO31 <= n < 0 && p >= 2
    ensures -TWO31 <= n / p < 0
  {
    var q := n / p;
    assert q * p <= n;
    BelowProduct(q, -1, p);
    assert n < q * p + p;
    BelowProduct(-TWO31 - 1, q, p);
  }

  lemma AtMostHalf(n: int, p: int)
    requires 0 <= n < TWO32 && p >= 2
    ensures 0 <= n / p < TWO31
  {
    var r := n / p;
    assert r * p <= n;
    BelowProduct(r, TWO31 - 1, p);
    assert n < r * p + p;
    BelowProduct(-1, r, p);
  }

  /** Comparing multiples compares the factors. */
  lemma BelowProduct(x: int, y: int, p: int)
    requires p >= 2
    ensures x > y ==> x * p >= y * p + p
  {
    if x > y {
      Multiply.MulMonotone(y + 1, x, p);
      Multiply.Distribute(y, 1, p);
    }
  }

  lemma WrapBelow(q: int, r: int)
    requires -TWO31 <= q < 0 <= r < TWO31
    ensures Wrap(q) != Wrap(r)
  {
    QuotientIs(q, TWO32, -1, q + TWO32);
    QuotientIs(r, TWO32, 0, r);
  }

  /** Multiply and divide, by the simulator's own multiplier and C's truncating division. */
  method HiLoCode(op: MulDivOp, a: Word, b: Word) returns (hi: Word, lo: Word)
    ensures (hi, lo) == HiLo(op, a, b)
  {
    match op {
      case MULT =>
        hi, lo := Multiply.Mult(a, b, true);
        HalvesOfPair(hi, lo, Signed(a) * Signed(b));
      case MULTU =>
        hi, lo := Multiply.Mult(a, b, false);
        HalvesOfPair(hi, lo, a * b);
      case DIV =>
        if b == 0 {
          hi, lo := 0, 0;
        } else {
          var q := TruncDiv(Signed(a), Signed(b));
          hi, lo := Wrap(Signed(a) - q * Signed(b)), Wrap(q);
        }
      case DIVU =>
        if b == 0 {
          hi, lo := 0, 0;
        } else {
          hi, lo := a % b, a / b;
        }
    }
  }

  /** Sign or zero extension of a loaded value by masks. */
  function ExtendCode(op: LoadOp, value: Word): Word {
    match op
    case LB => if value / 0x80 % 2 == 1 then value % 0x100 + 0xffff_ff00 else value % 0x100
    case LBU => value % 0x100
    case LH => if value / 0x8000 % 2 == 1 then value % 0x1_0000 + 0xffff_0000 else value % 0x1_0000
    case LHU => value % 0x1_0000
    case _ => value
  }

  lemma ExtendsAgree(op: LoadOp, value: Word, base: Word, k: int)
    requires !op.LWL? && !op.LWR? && 0 <= k < 4
    ensures ExtendCode(op, value) == LoadedValue(op, value, base, k)
  {
    hide MergeLeft, MergeRight;
    ByteSign(value);
    ShortSign(value);
  }

  /** The bit tested is the sign bit of the low byte... */
  lemma ByteSign(value: Word)
    ensures value / 0x80 % 2 == if value % 0x100 >= 0x80 then 1 else 0
  {
    var q, r := value / 0x100, value % 0x100;
    var h := if r >= 0x80 then 1 else 0;
    QuotientIs(value, 0x80, 2 * q + h, r - 0x80 * h);
    QuotientIs(2 * q + h, 2, q, h);
  }

  /** ... or of the low half word. */
  lemma ShortSign(value: Word)
    ensures value / 0x8000 % 2 == if value % 0x1_0000 >= 0x8000 then 1 else 0
  {
    var q, r := value / 0x1_0000, value % 0x1_0000;
    var h := if r >= 0x8000 then 1 else 0;
    QuotientIs(value, 0x8000, 2 * q + h, r - 0x8000 * h);
    QuotientIs(2 * q + h, 2, q, h);
  }

  lemma MisalignedFault(pages: PageTable, va: Word, size: int)
    requires (size == 2 && va % 2 != 0) || (size == 4 && va % 4 != 0)
    ensures AccessFault(pages, va, size, false) == Some(AddressErrorException)
  {
  }

  class Machine {
    const bigEndianHost: bool
    const registers: array<Word>
    const mainMemory: array<Byte>
    var pageTable: array<TranslationEntry>
    var raised: Option<ExceptionType>  // what `ExceptionHandler` was last called with

    ghost predicate Valid()
      reads this, registers, mainMemory, pageTable
    {
      && registers.Length == NUM_REGS && mainMemory.Length == MEMORY_SIZE
      && registers as object != mainMemory as object
      && Boundary(Value())
    }

    ghost function Value(): Cpu
      requires mainMemory.Length == MEMORY_SIZE
      reads this, registers, mainMemory, pageTable
    {
      Cpu(registers[..], mainMemory[..], pageTable[..])
    }

    /** Executing an instruction from state `c` has led here, with these values for the code's local variables. */
    ghost predicate Did(c: Cpu, e: Effect, done: bool, pcAfter: Word, loadReg: int, loadValue: Word)
      requires Boundary(c) && mainMemory.Length == MEMORY_SIZE
      reads this, registers, mainMemory, pageTable
    {
      if e.Trap? then
        !done && raised == Some(e.exception) &&
        Value() == Isa.RaiseException(c.(pages := e.trapPages), e.exception, e.badVAddr).cpu
      else
        done && Value() == Cpu(e.regs, e.mem, e.pages) &&
        pcAfter == e.pcAfter && loadReg == e.loadReg && loadValue == e.loadValue
    }

    method DelayedLoad(nextReg: Reg, nextValue: Word)
      requires registers.Length == NUM_REGS && registers[LOAD_REG] < 32
      modifies registers
      ensures registers[..] == Isa.DelayedLoad(old(registers[..]), nextReg, nextValue)
    {
      registers[registers[LOAD_REG]] := registers[LOAD_VALUE];
      registers[LOAD_REG] := nextReg;
      registers[LOAD_VALUE] := nextValue;
      registers[0] := 0;
    }

    method RaiseException(which: ExceptionType, badVAddr: Word)
      requires Valid()
      modifies registers, this`raised
      ensures Valid() && raised == Some(which)
      ensures Value() == Isa.RaiseException(old(Value()), which, badVAddr).cpu
    {
      registers[BAD_VADDR] := badVAddr;
      DelayedLoad(0, 0);
      raised := Some(which);
    }

    method Translate(va: Word, size: int, writing: bool) returns (exception: Option<ExceptionType>, pa: nat)
      requires size == 1 || size == 2 || size == 4
      modifies pageTable
      ensures exception == AccessFault(old(pageTable[..]), va, size, writing)
      ensures exception.Some? ==> pageTable[..] == old(pageTable[..])
      ensures exception.None? ==> pa + size <= MEMORY_SIZE && IsMapped(old(pageTable[..]), va)
      ensures exception.None? ==> pa == Physical(old(pageTable[..]), va)
      ensures exception.None? ==> pageTable[..] == Touch(old(pageTable[..]), va, writing)
    {
      pa := 0;
      if (size == 4 && va % 4 != 0) || (size == 2 && va % 2 != 0) {
        return Some(AddressErrorException), 0;
      }
      var vpn, offset := va / PAGE_SIZE, va % PAGE_SIZE;
      if vpn >= pageTable.Length {
        return Some(AddressErrorException), 0;
      }
      if !pageTable[vpn].valid {
        return Some(PageFaultException), 0;
      }
      if pageTable[vpn].readOnly && writing {
        return Some(ReadOnlyException), 0;
      }
      var frame := pageTable[vpn].physicalPage;
      if !(0 <= frame < NUM_PHYS_PAGES) {
        return Some(BusErrorException), 0;
      }
      AlignedWithinFrame(pageTable[..], va, size, 0);
      pageTable[vpn] := pageTable[vpn].(use := true);
      if writing {
        pageTable[vpn] := pageTable[vpn].(dirty := true);
      }
      return None, frame * PAGE_SIZE + offset;
    }

    method ReadMem(va: Word, size: int) returns (ok: bool, value: Word)
      requires Valid() && (size == 1 || size == 2 || size == 4)
      modifies pageTable, registers, this`raised
      ensures Valid()
      ensures match PagedMemory.ReadMem(old(Value()).pages, old(Value()).mem, va, size)
              case Loaded(v) => ok && value == v && IsMapped(old(pageTable[..]), va) &&
                Value() == old(Value()).(pages := Touch(old(Value()).pages, va, false))
              case LoadFault(e) => !ok && raised == Some(e) && Value() == Isa.RaiseException(old(Value()), e, va).cpu
    {
      var exception, pa := Translate(va, size, false);
      if exception.Some? {
        RaiseException(exception.value, va);
        return false, 0;
      }
      ok := true;
      if size == 1 {
        value := SignExtend8(mainMemory[pa]);
      } else if size == 2 {
        ShortOrder(bigEndianHost, mainMemory[pa], mainMemory[pa + 1]);
        value := ShortToHost(bigEndianHost, HostShort(bigEndianHost, mainMemory[pa], mainMemory[pa + 1]));
      } else {
        var b0, b1, b2, b3 := mainMemory[pa], mainMemory[pa + 1], mainMemory[pa + 2], mainMemory[pa + 3];
        WordOrder(bigEndianHost, b0, b1, b2, b3);
        value := WordToHost(bigEndianHost, HostWord(bigEndianHost, b0, b1, b2, b3));
      }
    }

    /** Overlay a host word on four bytes of memory. */
    method PokeWord(pa: nat, w: Word)
      requires pa + 4 <= mainMemory.Length == MEMORY_SIZE
      modifies mainMemory
      ensures mainMemory[..] == Poke(old(mainMemory[..]), pa, 4, WordToHost(bigEndianHost, w))
    {
      var b0, b1, b2, b3 := ByteOf(w, 0), ByteOf(w, 1), ByteOf(w, 2), ByteOf(w, 3);
      hide ByteOf, WordToHost;
      HostBytes(bigEndianHost, w);
      if bigEndianHost {
        b0, b1, b2, b3 := b3, b2, b1, b0;
      }
      mainMemory[pa], mainMemory[pa + 1], mainMemory[pa + 2], mainMemory[pa + 3] := b0, b1, b2, b3;
    }

    /** Overlay a host short on two bytes of memory. */
    method PokeShort(pa: nat, s: Word)
      requires pa + 2 <= mainMemory.Length == MEMORY_SIZE && s < 0x1_0000
      modifies mainMemory
      ensures var m := old(mainMemory[..]);
              mainMemory[..] == if bigEndianHost then m[pa := s / 0x100][pa + 1 := s % 0x100]
                                else m[pa := s % 0x100][pa + 1 := s / 0x100]
    {
      if bigEndianHost {
        mainMemory[pa], mainMemory[pa + 1] := s / 0x100, s % 0x100;
      } else {
        mainMemory[pa], mainMemory[pa + 1] := s % 0x100, s / 0x100;
      }
    }

    method WriteMem(va: Word, size: int, value: Word) returns (ok: bool)
      requires Valid() && (size == 1 || size == 2 || size == 4)
      modifies pageTable, registers, mainMemory, this`raised
      ensures Valid()
      ensures match PagedMemory.WriteMem(old(Value()).pages, old(Value()).mem, va, size, value)
              case Stored(m) => ok && IsMapped(old(pageTable[..]), va) &&
                Value() == old(Value()).(mem := m, pages := Touch(old(Value()).pages, va, true))
              case StoreFault(e) => !ok && raised == Some(e) && Value() == Isa.RaiseException(old(Value()), e, va).cpu
    {
      var exception, pa := Translate(va, size, true);
      if exception.Some? {
        RaiseException(exception.value, va);
        return false;
      }
      ok := true;
      if size == 1 {
        mainMemory[pa] := value % 0x100;
      } else if size == 2 {
        PokeShort(pa, ShortToHost(bigEndianHost, value % 0x1_0000));  // ShortToMachine
        ShortBytes(bigEndianHost, value);
      } else {
        WordToHostInvolution(bigEndianHost, value);
        PokeWord(pa, WordToHost(bigEndianHost, value));  // WordToMachine
      }
    }

    // ---- the cases of the big switch; `done` is false when the case returned early after an exception ----

    method ExecuteReg(op: RegOp, i: Instr) returns (done: bool, pcAfter: Word)
      requires Valid()
      modifies registers, this`raised
      ensures Did(old(Value()),
                  WriteResult(old(Value()), i.rd, RegResult(op, old(registers[i.rs]), old(registers[i.rt]), i.extra)),
                  done, pcAfter, 0, 0)
    {
      hide RegResult;
      pcAfter := Wrap(registers[NEXT_PC] as int + 4);
      var overflow, result := RegCode(op, registers[i.rs], registers[i.rt], i.extra);
      if overflow {
        RaiseException(OverflowException, 0);
      } else {
        registers[i.rd] := result;
      }
      done := !overflow;
    }

    method ExecuteImm(op: ImmOp, i: Instr) returns (done: bool, pcAfter: Word)
      requires Valid()
      modifies registers, this`raised
      ensures Did(old(Value()), WriteResult(old(Value()), i.rt, ImmResult(op, old(registers[i.rs]), i.extra)),
                  done, pcAfter, 0, 0)
    {
      hide ImmResult;
      pcAfter := Wrap(registers[NEXT_PC] as int + 4);
      var overflow, result := ImmCode(op, registers[i.rs], i.extra);
      if overflow {
        RaiseException(OverflowException, 0);
      } else {
        registers[i.rt] := result;
      }
      done := !overflow;
    }

    method ExecuteBranch(op: BranchOp, i: Instr) returns (pcAfter: Word)
      requires Valid()
      modifies registers
      ensures Did(old(Value()), BranchEffect(old(Value()), op, i), true, pcAfter, 0, 0)
    {
      var target := Wrap(registers[NEXT_PC] + 4 * i.extra);
      pcAfter := Wrap(registers[NEXT_PC] as int + 4);
      match op {
        case BEQ => if registers[i.rs] == registers[i.rt] { pcAfter := target; }
        case BNE => if registers[i.rs] != registers[i.rt] { pcAfter := target; }
        case BGEZAL =>
          registers[R31] := pcAfter;
          if !(registers[i.rs] >= TWO31) { pcAfter := target; }
        case BGEZ => if !(registers[i.rs] >= TWO31) { pcAfter := target; }
        case BGTZ => if Signed(registers[i.rs]) > 0 { pcAfter := target; }
        case BLEZ => if Signed(registers[i.rs]) <= 0 { pcAfter := target; }
        case BLTZAL =>
          registers[R31] := pcAfter;
          if registers[i.rs] >= TWO31 { pcAfter := target; }
        case BLTZ => if registers[i.rs] >= TWO31 { pcAfter := target; }
      }
    }

    method ExecuteJump(op: JumpOp, i: Instr) returns (pcAfter: Word)
      requires Valid()
      modifies registers
      ensures Did(old(Value()), JumpEffect(old(Value()), op, i), true, pcAfter, 0, 0)
    {
      pcAfter := Wrap(registers[NEXT_PC] as int + 4);
      if op.JAL? {
        registers[R31] := pcAfter;
      } else if op.JALR? {
        registers[i.rd] := pcAfter;
      }
      if op.J? || op.JAL? {
        pcAfter := Wrap(pcAfter / 0x1000_0000 * 0x1000_0000 + 4 * i.extra % 0x1000_0000);
      } else {
        pcAfter := registers[i.rs];
      }
    }

    method ExecuteMove(op: MoveOp, i: Instr) returns (pcAfter: Word)
      requires Valid()
      modifies registers
      ensures Did(old(Value()), MoveEffect(old(Value()), op, i), true, pcAfter, 0, 0)
    {
      pcAfter := Wrap(registers[NEXT_PC] as int + 4);
      match op {
        case MFHI => registers[i.rd] := registers[HI];
        case MFLO => registers[i.rd] := registers[LO];
        case MTHI => registers[HI] := registers[i.rs];
        case MTLO => registers[LO] := registers[i.rs];
      }
    }

    method ExecuteMulDiv(op: MulDivOp, i: Instr) returns (pcAfter: Word)
      requires Valid()
      modifies registers
      ensures Did(old(Value()), PairEffect(old(Value()), HiLo(op, old(registers[i.rs]), old(registers[i.rt]))),
                  true, pcAfter, 0, 0)
    {
      pcAfter := Wrap(registers[NEXT_PC] as int + 4);
      var a, b := registers[i.rs], registers[i.rt];
      var hi: Word, lo: Word := HiLoCode(op, a, b);
      registers[HI] := hi;
      registers[LO] := lo;
    }

    method ExecuteLoadUnaligned(op: LoadOp, i: Instr) returns (done: bool, loadValue: Word)
      requires Valid() && (op.LWL? || op.LWR?)
      modifies pageTable, registers, this`raised
      ensures Did(old(Value()),
                  LoadEffect(old(Value()), op, i.rt, Effective(old(Value()), i), MergeBase(old(Value()), i.rt)),
                  done, Sequential(old(Value())), i.rt, loadValue)
    {
      hide MergeLeft, MergeRight, LwlCode, LwrCode, Touch, PagedMemory.ReadMem, Wrap;
      loadValue := 0;
      var tmp := Wrap(registers[i.rs] + i.extra);
      var byte := tmp % 4;
      var value: Word;
      done, value := ReadMem(tmp - byte, 4);
      if !done { return; }
      if registers[LOAD_REG] == i.rt {
        loadValue := registers[LOAD_VALUE];
      } else {
        loadValue := registers[i.rt];
      }
      if op.LWL? {
        LeftLoadAgrees(value, loadValue, byte);
        loadValue := LwlCode(value, loadValue, 3 - byte);
      } else {
        RightLoadAgrees(value, loadValue, byte);
        loadValue := LwrCode(value, loadValue, 3 - byte);
      }
    }

    method ExecuteLoadAligned(op: LoadOp, i: Instr) returns (done: bool, loadValue: Word)
      requires Valid() && !op.LWL? && !op.LWR?
      modifies pageTable, registers, this`raised
      ensures Did(old(Value()),
                  LoadEffect(old(Value()), op, i.rt, Effective(old(Value()), i), MergeBase(old(Value()), i.rt)),
                  done, Sequential(old(Value())), i.rt, loadValue)
    {
      hide Touch, AccessFault, LoadedValue, ExtendCode, Wrap;
      loadValue := 0;
      var tmp := Wrap(registers[i.rs] + i.extra);
      if ((op.LH? || op.LHU?) && tmp % 2 != 0) || (op.LW? && tmp % 4 != 0) {
        MisalignedFault(pageTable[..], tmp, LoadSize(op));
        RaiseException(AddressErrorException, tmp);
        return false, 0;
      }
      ghost var base := MergeBase(Value(), i.rt);
      hide PagedMemory.ReadMem;
      var value: Word;
      done, value := ReadMem(tmp, LoadSize(op));
      if done {
        ExtendsAgree(op, value, base, tmp % 4);
        loadValue := ExtendCode(op, value);
      }
    }

    method ExecuteLoad(op: LoadOp, i: Instr) returns (done: bool, pcAfter: Word, loadReg: Reg, loadValue: Word)
      requires Valid()
      modifies pageTable, registers, this`raised
      ensures Did(old(Value()),
                  LoadEffect(old(Value()), op, i.rt, Effective(old(Value()), i), MergeBase(old(Value()), i.rt)),
                  done, pcAfter, loadReg, loadValue)
    {
      pcAfter := Wrap(registers[NEXT_PC] as int + 4);
      if op.LWL? || op.LWR? {
        done, loadValue := ExecuteLoadUnaligned(op, i);
      } else {
        done, loadValue := ExecuteLoadAligned(op, i);
      }
      loadReg := i.rt;
    }

    method ExecuteStore(op: StoreOp, i: Instr) returns (done: bool, pcAfter: Word)
      requires Valid()
      modifies pageTable, registers, mainMemory, this`raised
      ensures Did(old(Value()), StoreEffect(old(Value()), op, old(registers[i.rt]), Effective(old(Value()), i)),
                  done, pcAfter, 0, 0)
    {
      pcAfter := Wrap(registers[NEXT_PC] as int + 4);
      if op.SWL? || op.SWR? {
        done := ExecuteStoreUnaligned(op, i);
      } else {
        done := ExecuteStoreAligned(op, i);
      }
    }

    method ExecuteStoreUnaligned(op: StoreOp, i: Instr) returns (done: bool)
      requires Valid() && (op.SWL? || op.SWR?)
      modifies pageTable, registers, mainMemory, this`raised
      ensures Did(old(Value()), StoreEffect(old(Value()), op, old(registers[i.rt]), Effective(old(Value()), i)),
                  done, Sequential(old(Value())), 0, 0)
    {
      hide SplitLeft, SplitRight, SwlCode, SwrCode, AccessFault, PagedMemory.ReadMem, PagedMemory.WriteMem, Touch;
      hide Wrap;
      var tmp := Wrap(registers[i.rs] + i.extra);
      var byte := tmp % 4;
      var value: Word;
      done, value := ReadMem(tmp - byte, 4);
      if !done { return; }
      if op.SWL? {
        LeftStoreAgrees(value, registers[i.rt], byte);
        value := SwlCode(value, registers[i.rt], 3 - byte);
      } else {
        RightStoreAgrees(value, registers[i.rt], byte);
        value := SwrCode(value, registers[i.rt], 3 - byte);
      }
      done := WriteMem(tmp - byte, 4, value);
    }

    method ExecuteStoreAligned(op: StoreOp, i: Instr) returns (done: bool)
      requires Valid() && !op.SWL? && !op.SWR?
      modifies pageTable, registers, mainMemory, this`raised
      ensures Did(old(Value()), StoreEffect(old(Value()), op, old(registers[i.rt]), Effective(old(Value()), i)),
                  done, Sequential(old(Value())), 0, 0)
    {
      hide AccessFault, PagedMemory.WriteMem, Touch, Wrap;
      done := WriteMem(Wrap(registers[i.rs] + i.extra), StoreSize(op), registers[i.rt]);
    }

    /** The switch over the operations. */
    method ExecuteOp(i: Instr) returns (done: bool, pcAfter: Word, loadReg: Reg, loadValue: Word)
      requires Valid()
      modifies pageTable, registers, mainMemory, this`raised
      ensures Did(old(Value()), Execute(old(Value()), i), done, pcAfter, loadReg, loadValue)
    {
      hide RegResult, ImmResult, HiLo, WriteResult, BranchEffect, JumpEffect, MoveEffect, PairEffect, LoadEffect;
      hide StoreEffect;
      done, pcAfter, loadReg, loadValue := true, 0, 0, 0;
      match i.op {
        case AluR(op) => done, pcAfter := ExecuteReg(op, i);
        case AluI(op) => done, pcAfter := ExecuteImm(op, i);
        case Branch(op) => pcAfter := ExecuteBranch(op, i);
        case Jump(op) => pcAfter := ExecuteJump(op, i);
        case Move(op) => pcAfter := ExecuteMove(op, i);
        case MulDiv(op) => pcAfter := ExecuteMulDiv(op, i);
        case Load(op) => done, pcAfter, loadReg, loadValue := ExecuteLoad(op, i);
        case Store(op) => done, pcAfter := ExecuteStore(op, i);
        case SYSCALL => RaiseException(SyscallException, 0); done := false;
        case UNIMP => RaiseException(IllegalInstrException, 0); done := false;
        case RES => RaiseException(IllegalInstrException, 0); done := false;
      }
    }

    /** `OneInstruction`: fetch, decode, execute, land the delayed load, advance the program counters. */
    method OneInstruction() returns (done: bool)
      requires Valid()
      modifies pageTable, registers, mainMemory, this`raised
      ensures Valid()
      ensures Value() == DelayedLoads.Step(old(Value())).cpu
      ensures done <==> DelayedLoads.Step(old(Value())).exception.None?
      ensures !done ==> raised == DelayedLoads.Step(old(Value())).exception
    {
      hide Decode, Touch, AccessFault, Execute, PagedMemory.ReadMem;
      var raw: Word;
      done, raw := ReadMem(registers[PC], 4);
      if !done { return; }
      var i := Decode(raw);
      ExecuteWritesOperands(Value(), i);
      var pcAfter: Word, loadReg: Reg, loadValue: Word;
      done, pcAfter, loadReg, loadValue := ExecuteOp(i);
      if !done { return; }
      DelayedLoad(loadReg, loadValue);
      registers[PREV_PC] := registers[PC];
      registers[PC] := registers[NEXT_PC];
      registers[NEXT_PC] := pcAfter;
    }
  }

  lemma ShortBytes(bigEndian: bool, value: Word)
    ensures var s := ShortToHost(bigEndian, value % 0x1_0000);
            s < 0x1_0000 && (if bigEndian then s / 0x100 else s % 0x100) == ByteOf(value, 0) &&
            (if bigEndian then s % 0x100 else s / 0x100) == ByteOf(value, 1)
  {
    WordFields(value);
    var b0, b1 := ByteOf(value, 0), ByteOf(value, 1);
    hide ByteOf;
    ShortSwap(b0, b1);
  }

  lemma ShortSwap(b0: Byte, b1: Byte)
    ensures var v := b0 as int + 0x100 * b1;
            v < 0x1_0000 && v % 0x100 == b0 && v / 0x100 == b1 && v % 0x1_0000 == v &&
            ShortToHost(true, v) == b1 as int + 0x100 * b0
  {
    var v := b0 as int + 0x100 * b1;
    QuotientIs(v, 0x100, b1, b0);
    QuotientIs(v, 0x1_0000, 0, v);
    QuotientIs(b1, 0x100, 0, b1);
  }

  /** The bytes of a word as the host lays it out, lowest address first. */
  lemma HostBytes(bigEndian: bool, w: Word)
    ensures forall k :: 0 <= k < 4 ==>
              ByteOf(WordToHost(bigEndian, w), k) == if bigEndian then ByteOf(w, 3 - k) else ByteOf(w, k)
  {
    BytesOfWord(w);
    var b0, b1, b2, b3 := ByteOf(w, 0), ByteOf(w, 1), ByteOf(w, 2), ByteOf(w, 3);
    WordOrder(bigEndian, b3, b2, b1, b0);
    BytesOfFromBytes(b3, b2, b1, b0);
  }
}
