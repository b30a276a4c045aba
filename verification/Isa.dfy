/**
 Reference semantics of the simulated MIPS I processor, in the terms of the architecture:
 register values as signed or unsigned numbers, unaligned accesses byte by byte, and one delayed
 load pending between instructions.  `MipsSim` proves the simulator's code equal to it.
 */
module Isa {
  import opened Words
  import opened Bitwise
  import opened PagedMemory
  import opened Options

  type Reg = r: int | 0 <= r < 32

  const R31: int := 31
  const HI: int := 32
  const LO: int := 33
  const PC: int := 34
  const NEXT_PC: int := 35
  const PREV_PC: int := 36
  const LOAD_REG: int := 37
  const LOAD_VALUE: int := 38
  const BAD_VADDR: int := 39
  const NUM_REGS: int := 40

  datatype RegOp =
    | ADD | ADDU | AND | NOR | OR | SLL | SLLV | SLT | SLTU | SRA | SRAV | SRL | SRLV | SUB | SUBU | XOR
  datatype ImmOp = ADDI | ADDIU | ANDI | LUI | ORI | SLTI | SLTIU | XORI
  datatype BranchOp = BEQ | BNE | BGEZ | BGEZAL | BGTZ | BLEZ | BLTZ | BLTZAL
  datatype JumpOp = J | JAL | JR | JALR
  datatype MulDivOp = DIV | DIVU | MULT | MULTU
  datatype MoveOp = MFHI | MFLO | MTHI | MTLO
  datatype LoadOp = LB | LBU | LH | LHU | LW | LWL | LWR
  datatype StoreOp = SB | SH | SW | SWL | SWR

  /** The operations the simulator executes, by what they act on. */
  datatype Op =
    | AluR(r: RegOp)
    | AluI(i: ImmOp)
    | Branch(b: BranchOp)
    | Jump(j: JumpOp)
    | MulDiv(m: MulDivOp)
    | Move(v: MoveOp)
    | Load(l: LoadOp)
    | Store(s: StoreOp)
    | SYSCALL | UNIMP | RES

  datatype Instr = Instr(op: Op, rs: Reg, rt: Reg, rd: Reg, extra: Word)

  datatype Cpu = Cpu(regs: seq<Word>, mem: Memory, pages: PageTable)

  /** What holds at every instruction boundary. */
  predicate Boundary(c: Cpu) {
    |c.regs| == NUM_REGS && c.regs[0] == 0 && c.regs[LOAD_REG] < 32
  }

  // ---- arithmetic ----

  function ShiftLeft(w: Word, k: nat): Word { Wrap(w * Pow2(k)) }
  function ShiftRightArithmetic(w: Word, k: nat): Word { Wrap(Signed(w) / Pow2(k)) }
  function ShiftRightLogical(w: Word, k: nat): Word { Wrap(w / Pow2(k)) }

  /** C division: the quotient is rounded toward zero. */
  function TruncDiv(a: int, b: int): int
    requires b != 0
  {
    var q := (if a < 0 then -a else a) / (if b < 0 then -b else b);
    if (a < 0) == (b < 0) then q else -q
  }

  /** Result of a register-register operation; None when it overflows. */
  function RegResult(op: RegOp, a: Word, b: Word, shamt: Word): Option<Word> {
    match op
    case ADD => if IsInt32(Signed(a) + Signed(b)) then Some(Wrap(a + b)) else None
    case SUB => if IsInt32(Signed(a) - Signed(b)) then Some(Wrap(a - b)) else None
    case ADDU => Some(Wrap(a + b))
    case SUBU => Some(Wrap(a - b))
    case AND => Some(BitAnd(a, b))
    case OR => Some(BitOr(a, b))
    case XOR => Some(BitXor(a, b))
    case NOR => Some(BitNot(BitOr(a, b)))
    case SLT => Some(if Signed(a) < Signed(b) then 1 else 0)
    case SLTU => Some(if a < b then 1 else 0)
    case SLL => Some(ShiftLeft(b, shamt))
    case SLLV => Some(ShiftLeft(b, a % 32))
    case SRA => Some(ShiftRightArithmetic(b, shamt))
    case SRAV => Some(ShiftRightArithmetic(b, a % 32))
    case SRL => Some(ShiftRightArithmetic(b, shamt))       // the code shifts a signed int
    case SRLV => Some(ShiftRightArithmetic(b, a % 32))     // likewise
  }

  /** Result of a register-immediate operation; None when it overflows. */
  function ImmResult(op: ImmOp, a: Word, imm: Word): Option<Word> {
    match op
    case ADDI => if IsInt32(Signed(a) + Signed(imm)) then Some(Wrap(a + imm)) else None
    case ADDIU => Some(Wrap(a + imm))
    case ANDI => Some(BitAnd(a, imm % 0x1_0000))
    case ORI => Some(BitOr(a, imm % 0x1_0000))
    case XORI => Some(BitXor(a, imm % 0x1_0000))
    case SLTI => Some(if Signed(a) < Signed(imm) then 1 else 0)
    case SLTIU => Some(if a < imm then 1 else 0)
    case LUI => Some(Wrap(imm * 0x1_0000))
  }

  predicate Taken(op: BranchOp, a: Word, b: Word) {
    match op
    case BEQ => a == b
    case BNE => a != b
    case BGEZ => Signed(a) >= 0
    case BGEZAL => Signed(a) >= 0
    case BGTZ => Signed(a) > 0
    case BLEZ => Signed(a) <= 0
    case BLTZ => Signed(a) < 0
    case BLTZAL => Signed(a) < 0
  }

  /** The pair (hi, lo) a multiply or divide leaves. */
  function HiLo(op: MulDivOp, a: Word, b: Word): (Word, Word) {
    match op
    case MULT => Halves(Signed(a) * Signed(b))
    case MULTU => Halves(a * b)
    case DIV =>
      if b == 0 then (0, 0)
      else
        var q := TruncDiv(Signed(a), Signed(b));
        (Wrap(Signed(a) - q * Signed(b)), Wrap(q))
    case DIVU => if b == 0 then (0, 0) else (a % b, a / b)
  }

  function Halves(n: int): (Word, Word) {
    var m := n % TWO64;
    (m / TWO32, m % TWO32)
  }

  // ---- unaligned words, byte by byte; k is the address modulo 4, w the aligned word in memory ----

  function LwlByte(w: Word, base: Word, k: int, n: int): Byte
    requires 0 <= k < 4 && 0 <= n < 4
  { if n >= 3 - k then ByteOf(w, n - (3 - k)) else ByteOf(base, n) }

  function LwrByte(w: Word, base: Word, k: int, n: int): Byte
    requires 0 <= k < 4 && 0 <= n < 4
  { if n <= 3 - k then ByteOf(w, n + k) else ByteOf(base, n) }

  function SwlByte(w: Word, reg: Word, k: int, n: int): Byte
    requires 0 <= k < 4 && 0 <= n < 4
  { if n <= k then ByteOf(reg, n + (3 - k)) else ByteOf(w, n) }

  function SwrByte(w: Word, reg: Word, k: int, n: int): Byte
    requires 0 <= k < 4 && 0 <= n < 4
  { if n >= k then ByteOf(reg, n - k) else ByteOf(w, n) }

  function MergeLeft(w: Word, base: Word, k: int): Word
    requires 0 <= k < 4
  { FromBytes(LwlByte(w, base, k, 0), LwlByte(w, base, k, 1), LwlByte(w, base, k, 2), LwlByte(w, base, k, 3)) }

  function MergeRight(w: Word, base: Word, k: int): Word
    requires 0 <= k < 4
  { FromBytes(LwrByte(w, base, k, 0), LwrByte(w, base, k, 1), LwrByte(w, base, k, 2), LwrByte(w, base, k, 3)) }

  function SplitLeft(w: Word, reg: Word, k: int): Word
    requires 0 <= k < 4
  { FromBytes(SwlByte(w, reg, k, 0), SwlByte(w, reg, k, 1), SwlByte(w, reg, k, 2), SwlByte(w, reg, k, 3)) }

  function SplitRight(w: Word, reg: Word, k: int): Word
    requires 0 <= k < 4
  { FromBytes(SwrByte(w, reg, k, 0), SwrByte(w, reg, k, 1), SwrByte(w, reg, k, 2), SwrByte(w, reg, k, 3)) }

  // ---- one instruction ----

  /** What an instruction does before the delayed load lands and the program counters advance. */
  datatype Effect =
    | Trap(exception: ExceptionType, badVAddr: Word, trapPages: PageTable)
    | Retire(regs: seq<Word>, mem: Memory, pages: PageTable, pcAfter: Word, loadReg: Reg, loadValue: Word)

  function Sequential(c: Cpu): Word
    requires Boundary(c)
  { Wrap(c.regs[NEXT_PC] as int + 4) }

  function Effective(c: Cpu, i: Instr): Word
    requires Boundary(c)
  { Wrap(c.regs[i.rs] + i.extra) }

  function WriteResult(c: Cpu, d: Reg, result: Option<Word>): Effect
    requires Boundary(c)
  {
    match result
    case None => Trap(OverflowException, 0, c.pages)
    case Some(v) => Retire(c.regs[d := v], c.mem, c.pages, Sequential(c), 0, 0)
  }

  function BranchEffect(c: Cpu, op: BranchOp, i: Instr): Effect
    requires Boundary(c)
  {
    var regs := if op.BGEZAL? || op.BLTZAL? then c.regs[R31 := Sequential(c)] else c.regs;
    var pc := if Taken(op, regs[i.rs], regs[i.rt])
              then Wrap(c.regs[NEXT_PC] + 4 * i.extra) else Sequential(c);
    Retire(regs, c.mem, c.pages, pc, 0, 0)
  }

  function JumpEffect(c: Cpu, op: JumpOp, i: Instr): Effect
    requires Boundary(c)
  {
    var regs := if op.JAL? then c.regs[R31 := Sequential(c)]
                else if op.JALR? then c.regs[i.rd := Sequential(c)] else c.regs;
    var pc := if op.J? || op.JAL?
              then Wrap(Sequential(c) / 0x1000_0000 * 0x1000_0000 + 4 * i.extra % 0x1000_0000)
              else regs[i.rs];
    Retire(regs, c.mem, c.pages, pc, 0, 0)
  }

  function MoveEffect(c: Cpu, op: MoveOp, i: Instr): Effect
    requires Boundary(c)
  {
    var regs := match op
      case MFHI => c.regs[i.rd := c.regs[HI]]
      case MFLO => c.regs[i.rd := c.regs[LO]]
      case MTHI => c.regs[HI := c.regs[i.rs]]
      case MTLO => c.regs[LO := c.regs[i.rs]];
    Retire(regs, c.mem, c.pages, Sequential(c), 0, 0)
  }

  function PairEffect(c: Cpu, pair: (Word, Word)): Effect
    requires Boundary(c)
  {
    Retire(c.regs[HI := pair.0][LO := pair.1], c.mem, c.pages, Sequential(c), 0, 0)
  }

  /** The register an LWL or LWR merges into, counting the load still pending on it. */
  function MergeBase(c: Cpu, r: Reg): Word
    requires Boundary(c)
  { if c.regs[LOAD_REG] == r then c.regs[LOAD_VALUE] else c.regs[r] }

  function LoadSize(op: LoadOp): int {
    match op
    case LB => 1 case LBU => 1
    case LH => 2 case LHU => 2
    case LW => 4 case LWL => 4 case LWR => 4
  }

  function StoreSize(op: StoreOp): int {
    match op
    case SB => 1
    case SH => 2
    case SW => 4 case SWL => 4 case SWR => 4
  }

  function AlignDown(va: Word): Word { va - va % 4 }

  function LoadedValue(op: LoadOp, raw: Word, base: Word, k: int): Word
    requires 0 <= k < 4
  {
    match op
    case LB => SignExtend8(raw % 0x100)
    case LBU => raw % 0x100
    case LH => if raw % 0x1_0000 >= 0x8000 then raw % 0x1_0000 + 0xffff_0000 else raw % 0x1_0000
    case LHU => raw % 0x1_0000
    case LW => raw
    case LWL => MergeLeft(raw, base, k)
    case LWR => MergeRight(raw, base, k)
  }

  function LoadEffect(c: Cpu, op: LoadOp, rt: Reg, ea: Word, base: Word): Effect
    requires Boundary(c)
  {
    var va := if op.LWL? || op.LWR? then AlignDown(ea) else ea;  // the unaligned forms read the enclosing word
    match ReadMem(c.pages, c.mem, va, LoadSize(op))
    case LoadFault(e) => Trap(e, va, c.pages)
    case Loaded(raw) =>
      Retire(c.regs, c.mem, Touch(c.pages, va, false), Sequential(c), rt, LoadedValue(op, raw, base, ea % 4))
  }

  function StoreEffect(c: Cpu, op: StoreOp, value: Word, ea: Word): Effect
    requires Boundary(c)
  {
    if op.SWL? || op.SWR? then
      var va := AlignDown(ea);
      match ReadMem(c.pages, c.mem, va, 4)
      case LoadFault(e) => Trap(e, va, c.pages)
      case Loaded(raw) =>
        var merged := if op.SWL? then SplitLeft(raw, value, ea % 4) else SplitRight(raw, value, ea % 4);
        StoreTo(c, Touch(c.pages, va, false), va, 4, merged)
    else StoreTo(c, c.pages, ea, StoreSize(op), value)
  }

  function StoreTo(c: Cpu, pages: PageTable, va: Word, size: int, value: Word): Effect
    requires Boundary(c) && (size == 1 || size == 2 || size == 4)
  {
    match WriteMem(pages, c.mem, va, size, value)
    case StoreFault(e) => Trap(e, va, pages)
    case Stored(mem) => Retire(c.regs, mem, Touch(pages, va, true), Sequential(c), 0, 0)
  }

  function Execute(c: Cpu, i: Instr): Effect
    requires Boundary(c)
  {
    match i.op
    case AluR(op) => WriteResult(c, i.rd, RegResult(op, c.regs[i.rs], c.regs[i.rt], i.extra))
    case AluI(op) => WriteResult(c, i.rt, ImmResult(op, c.regs[i.rs], i.extra))
    case Branch(op) => BranchEffect(c, op, i)
    case Jump(op) => JumpEffect(c, op, i)
    case Move(op) => MoveEffect(c, op, i)
    case MulDiv(op) => PairEffect(c, HiLo(op, c.regs[i.rs], c.regs[i.rt]))
    case Load(op) => LoadEffect(c, op, i.rt, Effective(c, i), MergeBase(c, i.rt))
    case Store(op) => StoreEffect(c, op, c.regs[i.rt], Effective(c, i))
    case SYSCALL => Trap(SyscallException, 0, c.pages)
    case UNIMP => Trap(IllegalInstrException, 0, c.pages)
    case RES => Trap(IllegalInstrException, 0, c.pages)
  }

  /** `DelayedLoad`: the pending load lands, the next one becomes pending, and R0 is forced to zero. */
  function DelayedLoad(regs: seq<Word>, nextReg: Reg, nextValue: Word): (regs': seq<Word>)
    requires |regs| == NUM_REGS && regs[LOAD_REG] < 32
    ensures |regs'| == NUM_REGS && regs'[0] == 0 && regs'[LOAD_REG] == nextReg
  {
    regs[regs[LOAD_REG] := regs[LOAD_VALUE]][LOAD_REG := nextReg][LOAD_VALUE := nextValue][0 := 0]
  }

  datatype Outcome = Outcome(cpu: Cpu, exception: Option<ExceptionType>)

  /** Trapping to the kernel first lands the pending load. */
  function RaiseException(c: Cpu, e: ExceptionType, badVAddr: Word): Outcome
    requires Boundary(c)
  {
    Outcome(c.(regs := DelayedLoad(c.regs[BAD_VADDR := badVAddr], 0, 0)), Some(e))
  }

  function Advance(regs: seq<Word>, pcAfter: Word): seq<Word>
    requires |regs| == NUM_REGS
  {
    regs[PREV_PC := regs[PC]][PC := regs[NEXT_PC]][NEXT_PC := pcAfter]
  }

  predicate WritesOnlyOperands(c: Cpu, e: Effect) {
    e.Retire? ==>
      |e.regs| == |c.regs| && forall k :: PC <= k < |c.regs| ==> e.regs[k] == c.regs[k]
  }

  lemma ExecuteWritesOperands(c: Cpu, i: Instr)
    requires Boundary(c)
    ensures WritesOnlyOperands(c, Execute(c, i))
  {
  }

  /** A decoded instruction, from fetch to boundary. */
  function Perform(c: Cpu, i: Instr): Outcome
    requires Boundary(c)
  {
    ExecuteWritesOperands(c, i);
    match Execute(c, i)
    case Trap(e, bad, pages) => RaiseException(c.(pages := pages), e, bad)
    case Retire(regs, mem, pages, pcAfter, loadReg, loadValue) =>
      Outcome(Cpu(Advance(DelayedLoad(regs, loadReg, loadValue), pcAfter), mem, pages), None)
  }
}
