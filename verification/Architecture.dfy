/**
 What one call of `OneInstruction` does, read off the instruction word: for each opcode and function number of the
 MIPS I architecture, the whole state of the processor afterwards.
 */
module Architecture {
  import opened Words
  import opened Bitwise
  import opened Pairs
  import opened PagedMemory
  import opened Isa
  import opened Decoding
  import opened Options
  import opened DelayedLoads

  // ---- the fields of an instruction word ----

  function Opcode(raw: Word): int { raw / 0x400_0000 }
  function Rs(raw: Word): Reg { raw / 0x20_0000 % 32 }
  function Rt(raw: Word): Reg { raw / 0x1_0000 % 32 }
  function Rd(raw: Word): Reg { raw / 0x800 % 32 }
  function Shamt(raw: Word): int { raw / 0x40 % 32 }
  function FunctCode(raw: Word): int { raw % 64 }

  /** The immediate field, as the number between -32768 and 32767 that it stands for. */
  function Imm(raw: Word): int { if raw % 0x1_0000 >= 0x8000 then raw % 0x1_0000 - 0x1_0000 else raw % 0x1_0000 }

  lemma Fields(opcode: int, rs: int, rt: int, rd: int, shamt: int, funct: int)
    requires 0 <= opcode < 64 && 0 <= rs < 32 && 0 <= rt < 32 && 0 <= rd < 32 && 0 <= shamt < 32 && 0 <= funct < 64
    ensures var raw := Pack(opcode, rs, rt, rd, shamt, funct);
            && 0 <= raw < TWO32 && Opcode(raw) == opcode && Rs(raw) == rs && Rt(raw) == rt && Rd(raw) == rd
            && Shamt(raw) == shamt && FunctCode(raw) == funct
  {
    PackFields(opcode, rs, rt, rd, shamt, funct);
    var raw := Pack(opcode, rs, rt, rd, shamt, funct);
    QuotientIs(raw, 64, opcode * 0x10_0000 + rs * 0x8000 + rt * 0x400 + rd * 0x20 + shamt, funct);
  }

  /** The word at the program counter can be fetched. */
  predicate Fetches(c: Cpu, raw: Word)
    ensures Fetches(c, raw) ==> |c.regs| == NUM_REGS && c.regs[34] / 128 < |c.pages|
  {
    && |c.regs| == NUM_REGS && c.regs[PC] / 128 < |c.pages|
    && ReadMem(c.pages, c.mem, c.regs[PC], 4) == Loaded(raw)
  }

  // ---- the state after an instruction ----

  /** What an instruction leaves in the registers, besides the one it writes at once. */
  datatype Rest = Rest(hi: Word, lo: Word, next: Word, loadReg: Reg, loadValue: Word)

  /** No exception; register `d` written with `v`, then the pending load landed, R0 zero; and the rest as said. */
  ghost predicate Leaves(c: Cpu, o: Outcome, d: Reg, v: Word, rest: Rest) {
    && |c.regs| == NUM_REGS == |o.cpu.regs| && o.exception == None
    && (forall k :: 0 <= k < 32 ==>
          o.cpu.regs[k] ==
            if k == 0 then 0 else if k == c.regs[37] then c.regs[38] else if k == d then v else c.regs[k])
    && o.cpu.regs[32] == rest.hi && o.cpu.regs[33] == rest.lo
    && o.cpu.regs[34] == c.regs[35] && o.cpu.regs[35] == rest.next && o.cpu.regs[36] == c.regs[34]
    && o.cpu.regs[37] == rest.loadReg && o.cpu.regs[38] == rest.loadValue && o.cpu.regs[39] == c.regs[39]
  }

  /** An exception: the pending load has landed, BadVAddr is set, and the instruction has done nothing else. */
  ghost predicate Traps(c: Cpu, o: Outcome, e: ExceptionType, badVAddr: Word) {
    && |c.regs| == NUM_REGS == |o.cpu.regs| && o.exception == Some(e) && o.cpu.mem == c.mem
    && (forall k :: 0 <= k < 32 ==>
          o.cpu.regs[k] == if k == 0 then 0 else if k == c.regs[37] then c.regs[38] else c.regs[k])
    && (forall k :: 32 <= k < 37 ==> o.cpu.regs[k] == c.regs[k])
    && o.cpu.regs[37] == 0 && o.cpu.regs[38] == 0 && o.cpu.regs[39] == badVAddr
  }

  /** Nothing is stored; of the page table, only the use bit of the page of the instruction is set. */
  ghost predicate MemoryKept(c: Cpu, o: Outcome) {
    |c.regs| == NUM_REGS && c.regs[PC] / 128 < |c.pages| && o.cpu.mem == c.mem && o.cpu.pages == Used(c)
  }

  /** The page table once the instruction is fetched. */
  function Used(c: Cpu): PageTable
    requires |c.regs| == NUM_REGS && c.regs[34] / 128 < |c.pages|
  {
    var vpn := c.regs[34] / 128;
    c.pages[vpn := c.pages[vpn].(use := true)]
  }

  /** Where an instruction that is no jump and no load goes on. */
  function Onward(c: Cpu): Rest
    requires Boundary(c)
  { Rest(c.regs[32], c.regs[33], Wrap(c.regs[35] as int + 4), 0, 0) }

  /** The step is that of the instruction decoded, with the page used. */
  lemma Fetched(c: Cpu, raw: Word)
    requires Boundary(c) && Fetches(c, raw)
    ensures Boundary(c.(pages := Used(c)))
    ensures Step(c) == Perform(c.(pages := Used(c)), Decode(raw))
  {
    hide Perform, Decode;
    FaultFree(c.pages, c.regs[PC], 4, false);
    assert Touch(c.pages, c.regs[PC], false) == Used(c);
  }

  /** The effect of an instruction that writes `d` at once, if `d` is not R0. */
  ghost predicate Effects(c: Cpu, e: Effect, d: Reg, v: Word, rest: Rest) {
    && |c.regs| == NUM_REGS && e.Retire? && |e.regs| == NUM_REGS
    && (forall k :: 1 <= k < 32 ==> e.regs[k] == if k == d then v else c.regs[k])
    && e.regs[32] == rest.hi && e.regs[33] == rest.lo
    && e.pcAfter == rest.next && e.loadReg == rest.loadReg && e.loadValue == rest.loadValue
  }

  lemma Retired(c: Cpu, raw: Word, d: Reg, v: Word, rest: Rest)
    requires Boundary(c) && Fetches(c, raw)
    requires var c1 := c.(pages := Used(c)); Boundary(c1) && Effects(c1, Execute(c1, Decode(raw)), d, v, rest)
    ensures Leaves(c, Step(c), d, v, rest)
    ensures var e := Execute(c.(pages := Used(c)), Decode(raw));
            Step(c).cpu.mem == e.mem && Step(c).cpu.pages == e.pages
  {
    hide Execute, Decode, Step;
    Fetched(c, raw);
    ExecuteWritesOperands(c.(pages := Used(c)), Decode(raw));
  }

  lemma Trapped(c: Cpu, raw: Word)
    requires Boundary(c) && Fetches(c, raw)
    requires var c1 := c.(pages := Used(c)); Boundary(c1) && Execute(c1, Decode(raw)).Trap?
    ensures var e := Execute(c.(pages := Used(c)), Decode(raw));
            Traps(c, Step(c), e.exception, e.badVAddr) && Step(c).cpu.pages == e.trapPages
  {
    hide Execute, Decode, Step;
    Fetched(c, raw);
  }

  /** The decoder's fields are those of the word; its operation, the one encoded so. */
  lemma Decoded(raw: Word, op: Op)
    requires !op.UNIMP? && !op.RES? && HasEncoding(raw, EncodingOf(op))
    ensures var i := Decode(raw);
            && i.op == op && i.rs == Rs(raw) && i.rt == Rt(raw) && i.rd == Rd(raw)
            && (Opcode(raw) == 0 ==> i.extra == Shamt(raw))
            && (Opcode(raw) == 2 || Opcode(raw) == 3 ==> i.extra == raw % 0x400_0000)
            && (Opcode(raw) == 1 || Opcode(raw) > 3 ==> i.extra == Wrap(Imm(raw)))
  {
    DecodesExactly(raw, op);
    FormatOf(raw / 0x400_0000);
    hide OpTable, SpecialTable, BcondOp, EncodingOf;
    QuotientIs(raw / 0x400_0000, 64, 0, raw / 0x400_0000);
    var n := Imm(raw);
    if n < 0 { QuotientIs(n, TWO32, -1, n + TWO32); } else { QuotientIs(n, TWO32, 0, n); }
  }

  // ---- branches and jumps ----

  /** The registers a branch compares; a branch that links has written R31 before. */
  function Compared(c: Cpu, raw: Word, r: Reg): Word
    requires Boundary(c)
  { if Opcode(raw) == 1 && Rt(raw) >= 16 && r == 31 then Wrap(c.regs[35] as int + 4) else c.regs[r] }

  /**
   BEQ, BNE, BLEZ and BGTZ (opcodes 4 to 7), BLTZ, BGEZ, BLTZAL and BGEZAL (opcode 1): when each is taken, where it
   goes, and what it links.
   */
  lemma Branches(c: Cpu, raw: Word)
    requires Boundary(c) && Fetches(c, raw)
    requires 4 <= Opcode(raw) <= 7 || (Opcode(raw) == 1 && Rt(raw) in {0, 1, 16, 17})
    ensures var a, b, next := Compared(c, raw, Rs(raw)), Compared(c, raw, Rt(raw)), Wrap(c.regs[35] as int + 4);
            var taken :=
              || (Opcode(raw) == 4 && a == b)
              || (Opcode(raw) == 5 && a != b)
              || (Opcode(raw) == 6 && Signed(a) <= 0)
              || (Opcode(raw) == 7 && Signed(a) > 0)
              || (Opcode(raw) == 1 && Rt(raw) in {0, 16} && Signed(a) < 0)
              || (Opcode(raw) == 1 && Rt(raw) in {1, 17} && Signed(a) >= 0);
            var links := Opcode(raw) == 1 && Rt(raw) >= 16;
            var to := if taken then Wrap(c.regs[35] + 4 * Imm(raw)) else next;
            && Leaves(c, Step(c), if links then 31 else 0, next, Onward(c).(next := to))
            && MemoryKept(c, Step(c))
  {
    hide Leaves, Effects, Step, Decode, EncodingOf, HasEncoding, Fetches, Used;
    Fetched(c, raw);
    var op := BranchOf(raw);
    BranchEncoded(raw);
    Decoded(raw, Branch(op));
    Target(c.regs[35], Imm(raw));
    var a, b, next := Compared(c, raw, Rs(raw)), Compared(c, raw, Rt(raw)), Wrap(c.regs[35] as int + 4);
    var to := if Taken(op, a, b) then Wrap(c.regs[35] + 4 * Imm(raw)) else next;
    TakenMeans(raw, a, b);
    hide Taken, BranchOf;
    BranchEffects(c.(pages := Used(c)), raw, Decode(raw));
    Retired(c, raw, if op.BGEZAL? || op.BLTZAL? then 31 else 0, next, Onward(c).(next := to));
  }

  lemma TakenMeans(raw: Word, a: Word, b: Word)
    requires 4 <= Opcode(raw) <= 7 || (Opcode(raw) == 1 && Rt(raw) in {0, 1, 16, 17})
    ensures Taken(BranchOf(raw), a, b) <==>
              || (Opcode(raw) == 4 && a == b)
              || (Opcode(raw) == 5 && a != b)
              || (Opcode(raw) == 6 && Signed(a) <= 0)
              || (Opcode(raw) == 7 && Signed(a) > 0)
              || (Opcode(raw) == 1 && Rt(raw) in {0, 16} && Signed(a) < 0)
              || (Opcode(raw) == 1 && Rt(raw) in {1, 17} && Signed(a) >= 0)
    ensures var op := BranchOf(raw);
            (op.BGEZAL? || op.BLTZAL?) <==> Opcode(raw) == 1 && Rt(raw) >= 16
  {
  }

  lemma BranchEncoded(raw: Word)
    requires 4 <= Opcode(raw) <= 7 || (Opcode(raw) == 1 && Rt(raw) in {0, 1, 16, 17})
    ensures HasEncoding(raw, EncodingOf(Branch(BranchOf(raw))))
  {
  }

  lemma BranchEffects(c: Cpu, raw: Word, i: Instr)
    requires Boundary(c) && i.op == Branch(BranchOf(raw)) && i.rs == Rs(raw) && i.rt == Rt(raw)
    requires 4 <= Opcode(raw) <= 7 || (Opcode(raw) == 1 && Rt(raw) in {0, 1, 16, 17})
    ensures var op, a, b := BranchOf(raw), Compared(c, raw, Rs(raw)), Compared(c, raw, Rt(raw));
            var next := Wrap(c.regs[35] as int + 4);
            var to := if Taken(op, a, b) then Wrap(c.regs[35] + 4 * i.extra) else next;
            && Effects(c, Execute(c, i), if op.BGEZAL? || op.BLTZAL? then 31 else 0, next, Onward(c).(next := to))
            && Execute(c, i).mem == c.mem && Execute(c, i).pages == c.pages
  {
    hide Taken;
  }

  function BranchOf(raw: Word): BranchOp {
    if Opcode(raw) == 4 then BEQ
    else if Opcode(raw) == 5 then BNE
    else if Opcode(raw) == 6 then BLEZ
    else if Opcode(raw) == 7 then BGTZ
    else if Rt(raw) == 0 then BLTZ
    else if Rt(raw) == 1 then BGEZ
    else if Rt(raw) == 16 then BLTZAL else BGEZAL
  }

  lemma Target(n: Word, imm: int)
    requires -0x8000 <= imm < 0x8000
    ensures Wrap(n + 4 * Wrap(imm)) == Wrap(n + 4 * imm)
  {
    if imm >= 0 {
      QuotientIs(imm, TWO32, 0, imm);
    } else {
      QuotientIs(imm, TWO32, -1, imm + TWO32);
      var m := n + 4 * imm;
      QuotientIs(m + 4 * TWO32, TWO32, m / TWO32 + 4, m % TWO32);
    }
  }

  /** J and JAL (opcodes 2 and 3), JR and JALR (functions 8 and 9). */
  lemma Jumps(c: Cpu, raw: Word)
    requires Boundary(c) && Fetches(c, raw)
    requires 2 <= Opcode(raw) <= 3 || (Opcode(raw) == 0 && 8 <= FunctCode(raw) <= 9)
    ensures var next := Wrap(c.regs[35] as int + 4);
            var to :=
              if Opcode(raw) != 0 then next / 0x1000_0000 * 0x1000_0000 + 4 * (raw % 0x400_0000)
              else if FunctCode(raw) == 9 && Rs(raw) == Rd(raw) then next else c.regs[Rs(raw)];
            var d := if Opcode(raw) == 3 then 31 else if Opcode(raw) == 0 && FunctCode(raw) == 9 then Rd(raw) else 0;
            && 0 <= to < TWO32
            && Leaves(c, Step(c), d, next, Onward(c).(next := to))
            && MemoryKept(c, Step(c))
  {
    hide Leaves, Effects, Step, Decode, EncodingOf, HasEncoding, Fetches, Used;
    Fetched(c, raw);
    JumpEncoded(raw);
    Decoded(raw, Jump(JumpOf(raw)));
    JumpEffects(c.(pages := Used(c)), raw, Decode(raw));
    var next := Wrap(c.regs[35] as int + 4);
    Retired(c, raw, JumpLink(raw), next, Onward(c).(next := JumpTarget(c, raw)));
  }

  function JumpOf(raw: Word): JumpOp {
    if Opcode(raw) == 2 then J else if Opcode(raw) == 3 then JAL else if FunctCode(raw) == 8 then JR else JALR
  }

  lemma JumpEncoded(raw: Word)
    requires 2 <= Opcode(raw) <= 3 || (Opcode(raw) == 0 && 8 <= FunctCode(raw) <= 9)
    ensures HasEncoding(raw, EncodingOf(Jump(JumpOf(raw))))
  {
  }

  function JumpLink(raw: Word): Reg {
    if Opcode(raw) == 3 then 31 else if Opcode(raw) == 0 && FunctCode(raw) == 9 then Rd(raw) else 0
  }

  function JumpTarget(c: Cpu, raw: Word): Word
    requires Boundary(c)
  {
    var next := Wrap(c.regs[35] as int + 4);
    if Opcode(raw) != 0 then next / 0x1000_0000 * 0x1000_0000 + 4 * (raw % 0x400_0000)
    else if FunctCode(raw) == 9 && Rs(raw) == Rd(raw) then next else c.regs[Rs(raw)]
  }

  lemma JumpEffects(c: Cpu, raw: Word, i: Instr)
    requires Boundary(c) && i.op == Jump(JumpOf(raw)) && i.rs == Rs(raw) && i.rd == Rd(raw)
    requires 2 <= Opcode(raw) <= 3 ==> i.extra == raw % 0x400_0000
    requires 2 <= Opcode(raw) <= 3 || (Opcode(raw) == 0 && 8 <= FunctCode(raw) <= 9)
    ensures var e, next := Execute(c, i), Wrap(c.regs[35] as int + 4);
            && Effects(c, e, JumpLink(raw), next, Onward(c).(next := JumpTarget(c, raw)))
            && e.mem == c.mem && e.pages == c.pages
  {
    if 2 <= Opcode(raw) <= 3 {
      var next := Sequential(c);
      QuotientIs(4 * i.extra, 0x1000_0000, 0, 4 * i.extra);
      var to := next / 0x1000_0000 * 0x1000_0000 + 4 * i.extra;
      QuotientIs(to, TWO32, 0, to);
    }
  }

  /**
   A subroutine call returns: JAL at an address, and later JR R31 with R31 as JAL left it, go on two words after the
   JAL, once the instruction in the delay slot of the JR is done.
   */
  lemma CallReturns(c: Cpu, call: Word, d: Cpu, back: Word)
    requires Boundary(c) && Fetches(c, call) && Opcode(call) == 3 && c.regs[NEXT_PC] == Wrap(c.regs[PC] as int + 4)
    requires c.regs[LOAD_REG] != 31
    requires Boundary(d) && Fetches(d, back) && Opcode(back) == 0 && FunctCode(back) == 8 && Rs(back) == 31
    requires |Step(c).cpu.regs| == NUM_REGS && d.regs[31] == Step(c).cpu.regs[31]
    ensures |Step(d).cpu.regs| == NUM_REGS && Step(d).cpu.regs[NEXT_PC] == Wrap(c.regs[PC] as int + 8)
    ensures Boundary(Step(d).cpu)
    ensures var slot := Step(Step(d).cpu);
            slot.exception == None ==> |slot.cpu.regs| == NUM_REGS && slot.cpu.regs[PC] == Wrap(c.regs[PC] as int + 8)
  {
    hide Step, Fetches, Leaves, MemoryKept;
    var next := Wrap(c.regs[35] as int + 4);
    Jumps(c, call);
    Jumps(d, back);
    LeavesIn(c, Step(c), 31, next, Onward(c).(next := next / 0x1000_0000 * 0x1000_0000 + 4 * (call % 0x400_0000)));
    LeavesIn(d, Step(d), 0, Wrap(d.regs[35] as int + 4), Onward(d).(next := d.regs[31]));
    StepKeepsBoundary(d);
    StepAdvances(Step(d).cpu);
    WrapAdd(4, c.regs[PC] as int + 4);
  }

  lemma LeavesIn(c: Cpu, o: Outcome, d: Reg, v: Word, rest: Rest)
    requires Leaves(c, o, d, v, rest)
    ensures |o.cpu.regs| == NUM_REGS && o.cpu.regs[NEXT_PC] == rest.next
    ensures d != 0 && d != c.regs[LOAD_REG] ==> o.cpu.regs[d] == v
  {
  }

  lemma StepAdvances(c: Cpu)
    requires Boundary(c)
    ensures Step(c).exception == None ==> |Step(c).cpu.regs| == NUM_REGS && Step(c).cpu.regs[PC] == c.regs[NEXT_PC]
  {
    hide Decode, Execute;
    match ReadMem(c.pages, c.mem, c.regs[PC], 4)
    case LoadFault(_) =>
    case Loaded(raw) => ExecuteWritesOperands(c.(pages := Touch(c.pages, c.regs[PC], false)), Decode(raw));
  }

  // ---- arithmetic ----

  /** ADD, ADDU, SUB and SUBU (functions 32 to 35): exact, or an overflow exception, or modulo 2^32. */
  lemma Sums(c: Cpu, raw: Word) returns (v: Word)
    requires Boundary(c) && Fetches(c, raw) && Opcode(raw) == 0 && 32 <= FunctCode(raw) <= 35
    ensures var a, b, f := c.regs[Rs(raw)], c.regs[Rt(raw)], FunctCode(raw);
            var exact :=
              if f == 32 then Signed(a) + Signed(b)
              else if f == 33 then a + b
              else if f == 34 then Signed(a) - Signed(b) else a - b;
            if FunctCode(raw) % 2 == 0 && !IsInt32(exact) then Traps(c, Step(c), OverflowException, 0)
            else
              && Leaves(c, Step(c), Rd(raw), v, Onward(c)) && MemoryKept(c, Step(c))
              && (if FunctCode(raw) % 2 == 0 then Signed(v) == exact else v == exact % TWO32)
  {
    hide Leaves, Traps, Step, MemoryKept, Used, Fetches, RegResult;
    SumsMean(FunctCode(raw), c.regs[Rs(raw)], c.regs[Rt(raw)], Shamt(raw));
    v := RegisterStep(c, raw, ArithmeticOf(FunctCode(raw)));
  }

  lemma SumsMean(f: int, a: Word, b: Word, shamt: Word)
    requires 32 <= f <= 35
    ensures var exact :=
              if f == 32 then Signed(a) + Signed(b)
              else if f == 33 then a + b
              else if f == 34 then Signed(a) - Signed(b) else a - b;
            match RegResult(ArithmeticOf(f), a, b, shamt)
            case None => f % 2 == 0 && !IsInt32(exact)
            case Some(v) => if f % 2 == 0 then IsInt32(exact) && Signed(v) == exact else v == exact % TWO32
  {
  }

  /** AND, OR, XOR and NOR (functions 36 to 39), bit by bit. */
  lemma Logic(c: Cpu, raw: Word) returns (v: Word)
    requires Boundary(c) && Fetches(c, raw) && Opcode(raw) == 0 && 36 <= FunctCode(raw) <= 39
    ensures Leaves(c, Step(c), Rd(raw), v, Onward(c)) && MemoryKept(c, Step(c))
    ensures forall k :: 0 <= k < 32 ==>
              var a, b := Bit(c.regs[Rs(raw)], k), Bit(c.regs[Rt(raw)], k);
              && (FunctCode(raw) == 36 ==> (Bit(v, k) <==> a && b))
              && (FunctCode(raw) == 37 ==> (Bit(v, k) <==> a || b))
              && (FunctCode(raw) == 38 ==> (Bit(v, k) <==> a != b))
              && (FunctCode(raw) == 39 ==> (Bit(v, k) <==> !a && !b))
  {
    hide Leaves, Traps, Step, MemoryKept, Used, Fetches, Bit, BitAnd, BitOr, BitXor, BitNot;
    v := RegisterStep(c, raw, ArithmeticOf(FunctCode(raw)));
    var a, b := c.regs[Rs(raw)], c.regs[Rt(raw)];
    forall k | 0 <= k < 32
      ensures Bit(BitAnd(a, b), k) <==> Bit(a, k) && Bit(b, k)
      ensures Bit(BitOr(a, b), k) <==> Bit(a, k) || Bit(b, k)
      ensures Bit(BitXor(a, b), k) <==> Bit(a, k) != Bit(b, k)
      ensures Bit(BitNot(BitOr(a, b)), k) <==> !Bit(a, k) && !Bit(b, k)
    {
      BitwiseBits(a, b, k);
      BitwiseBits(BitOr(a, b), b, k);
    }
  }

  /** SLT and SLTU (functions 42 and 43). */
  lemma Comparisons(c: Cpu, raw: Word)
    requires Boundary(c) && Fetches(c, raw) && Opcode(raw) == 0 && 42 <= FunctCode(raw) <= 43
    ensures var a, b := c.regs[Rs(raw)], c.regs[Rt(raw)];
            var less := if FunctCode(raw) == 42 then Signed(a) < Signed(b) else a < b;
            Leaves(c, Step(c), Rd(raw), if less then 1 else 0, Onward(c)) && MemoryKept(c, Step(c))
  {
    hide Leaves, Traps, Step, MemoryKept, Used, Fetches;
    var v := RegisterStep(c, raw, ArithmeticOf(FunctCode(raw)));
  }

  /** A register-register operation writes its result, or overflows. */
  lemma RegisterStep(c: Cpu, raw: Word, op: RegOp) returns (v: Word)
    requires Boundary(c) && Fetches(c, raw) && HasEncoding(raw, EncodingOf(AluR(op)))
    ensures Opcode(raw) == 0
    ensures match RegResult(op, c.regs[Rs(raw)], c.regs[Rt(raw)], Shamt(raw))
            case None => Traps(c, Step(c), OverflowException, 0)
            case Some(w) => v == w && Leaves(c, Step(c), Rd(raw), v, Onward(c)) && MemoryKept(c, Step(c))
  {
    hide Leaves, Traps, Step, Decode, RegResult;
    Fetched(c, raw);
    Decoded(raw, AluR(op));
    var result := RegResult(op, c.regs[Rs(raw)], c.regs[Rt(raw)], Shamt(raw));
    if result.None? {
      v := 0;
      Trapped(c, raw);
    } else {
      v := result.value;
      Retired(c, raw, Rd(raw), v, Onward(c));
    }
  }

  function ArithmeticOf(f: int): RegOp {
    match f
    case 32 => ADD case 33 => ADDU case 34 => SUB case 35 => SUBU
    case 36 => AND case 37 => OR case 38 => XOR case 39 => NOR
    case 42 => SLT case _ => SLTU
  }

  /** SLL, SRL, SRA, SLLV, SRLV and SRAV (functions 0 to 7), bit by bit; SRL and SRLV copy the sign bit too. */
  lemma Shifts(c: Cpu, raw: Word) returns (v: Word)
    requires Boundary(c) && Fetches(c, raw) && Opcode(raw) == 0
    requires 0 <= FunctCode(raw) <= 7 && FunctCode(raw) != 1 && FunctCode(raw) != 5
    ensures Leaves(c, Step(c), Rd(raw), v, Onward(c)) && MemoryKept(c, Step(c))
    ensures forall k :: 0 <= k < 32 ==>
              var b, s := c.regs[Rt(raw)], if FunctCode(raw) < 4 then Shamt(raw) else c.regs[Rs(raw)] % 32;
              Bit(v, k) <==>
                if FunctCode(raw) % 4 == 0 then k >= s && Bit(b, k - s) else Bit(b, if k + s < 32 then k + s else 31)
  {
    hide Leaves, Traps, Step, MemoryKept, Used, Fetches, Bit, RegResult, Wrap, Pow2, Signed;
    v := RegisterStep(c, raw, ShiftOf(FunctCode(raw)));
    var a, b := c.regs[Rs(raw)], c.regs[Rt(raw)];
    var s := if FunctCode(raw) < 4 then Shamt(raw) else a % 32;
    ShiftResult(FunctCode(raw), a, b, Shamt(raw));
    hide ShiftOf;
    forall k | 0 <= k < 32
      ensures Bit(v, k) <==>
                if FunctCode(raw) % 4 == 0 then k >= s && Bit(b, k - s) else Bit(b, if k + s < 32 then k + s else 31)
    {
      ShiftedBit(FunctCode(raw), b, s, k, v);
    }
  }

  lemma ShiftedBit(f: int, b: Word, s: nat, k: nat, v: Word)
    requires k < 32 && v == if f % 4 == 0 then Wrap(b * Pow2(s)) else Wrap(Signed(b) / Pow2(s))
    ensures Bit(v, k) <==> if f % 4 == 0 then k >= s && Bit(b, k - s) else Bit(b, if k + s < 32 then k + s else 31)
  {
    hide Bit, Pow2, Wrap, Signed;
    ShiftedLeft(b, s, k);
    ShiftedRight(b, s, k);
  }

  lemma ShiftResult(f: int, a: Word, b: Word, shamt: int)
    requires 0 <= f <= 7 && f != 1 && f != 5 && 0 <= shamt < 32
    ensures var s := if f < 4 then shamt else a % 32;
            RegResult(ShiftOf(f), a, b, shamt)
            == Some(if f % 4 == 0 then Wrap(b * Pow2(s)) else Wrap(Signed(b) / Pow2(s)))
  {
    hide Pow2;
  }

  function ShiftOf(f: int): RegOp {
    match f
    case 0 => SLL case 2 => SRL case 3 => SRA case 4 => SLLV case 6 => SRLV case _ => SRAV
  }

  /** A register-immediate operation writes its result, or overflows. */
  lemma ImmediateStep(c: Cpu, raw: Word, op: ImmOp) returns (v: Word)
    requires Boundary(c) && Fetches(c, raw) && HasEncoding(raw, EncodingOf(AluI(op)))
    ensures match ImmResult(op, c.regs[Rs(raw)], Wrap(Imm(raw)))
            case None => Traps(c, Step(c), OverflowException, 0)
            case Some(w) => v == w && Leaves(c, Step(c), Rt(raw), v, Onward(c)) && MemoryKept(c, Step(c))
  {
    hide Leaves, Traps, Step, Decode, ImmResult;
    Fetched(c, raw);
    Decoded(raw, AluI(op));
    var result := ImmResult(op, c.regs[Rs(raw)], Wrap(Imm(raw)));
    if result.None? {
      v := 0;
      Trapped(c, raw);
    } else {
      v := result.value;
      Retired(c, raw, Rt(raw), v, Onward(c));
    }
  }

  function ImmediateOf(opcode: int): ImmOp {
    match opcode
    case 8 => ADDI case 9 => ADDIU case 10 => SLTI case 11 => SLTIU
    case 12 => ANDI case 13 => ORI case 14 => XORI case _ => LUI
  }

  /** The immediate as the word it is extended to. */
  lemma Extended(raw: Word)
    ensures var n, w := Imm(raw), Wrap(Imm(raw));
            && w == (if n < 0 then n + TWO32 else n) && Signed(w) == n
            && w % 0x1_0000 == raw % 0x1_0000 && Wrap(w * 0x1_0000) == raw % 0x1_0000 * 0x1_0000
  {
    var n, low := Imm(raw), raw % 0x1_0000;
    if n < 0 {
      QuotientIs(n, TWO32, -1, n + TWO32);
      QuotientIs(n + TWO32, 0x1_0000, 0xffff, low);
      QuotientIs((n + TWO32) * 0x1_0000, TWO32, 0xffff, low * 0x1_0000);
    } else {
      QuotientIs(n, TWO32, 0, n);
      QuotientIs(n, 0x1_0000, 0, low);
      QuotientIs(n * 0x1_0000, TWO32, 0, low * 0x1_0000);
    }
  }

  /** ADDI and ADDIU (opcodes 8 and 9) add the signed immediate; LUI (15) puts it in the upper half. */
  lemma ImmediateSums(c: Cpu, raw: Word) returns (v: Word)
    requires Boundary(c) && Fetches(c, raw) && (Opcode(raw) == 8 || Opcode(raw) == 9 || Opcode(raw) == 15)
    ensures var a := c.regs[Rs(raw)];
            var exact := Signed(a) + Imm(raw);
            if Opcode(raw) == 8 && !IsInt32(exact) then Traps(c, Step(c), OverflowException, 0)
            else
              && Leaves(c, Step(c), Rt(raw), v, Onward(c)) && MemoryKept(c, Step(c))
              && (if Opcode(raw) == 8 then Signed(v) == exact
                  else if Opcode(raw) == 9 then v == (a + Imm(raw)) % TWO32
                  else v == raw % 0x1_0000 * 0x1_0000)
  {
    hide Leaves, Traps, Step, MemoryKept, Used, Fetches, ImmResult;
    v := ImmediateStep(c, raw, ImmediateOf(Opcode(raw)));
    ImmediateMeans(raw, c.regs[Rs(raw)]);
  }

  lemma ImmediateMeans(raw: Word, a: Word)
    requires Opcode(raw) == 8 || Opcode(raw) == 9 || Opcode(raw) == 15
    ensures var exact := Signed(a) + Imm(raw);
            match ImmResult(ImmediateOf(Opcode(raw)), a, Wrap(Imm(raw)))
            case None => Opcode(raw) == 8 && !IsInt32(exact)
            case Some(v) =>
              if Opcode(raw) == 8 then IsInt32(exact) && Signed(v) == exact
              else if Opcode(raw) == 9 then v == (a + Imm(raw)) % TWO32
              else v == raw % 0x1_0000 * 0x1_0000
  {
    Extended(raw);
    WrapAdd(a, Imm(raw));
    hide Imm;
  }

  /** SLTI and SLTIU (opcodes 10 and 11): both extend the sign, and differ in how they compare. */
  lemma ImmediateComparisons(c: Cpu, raw: Word)
    requires Boundary(c) && Fetches(c, raw) && 10 <= Opcode(raw) <= 11
    ensures var a, n := c.regs[Rs(raw)], Imm(raw);
            var less := if Opcode(raw) == 10 then Signed(a) < n else a < if n < 0 then n + TWO32 else n;
            Leaves(c, Step(c), Rt(raw), if less then 1 else 0, Onward(c)) && MemoryKept(c, Step(c))
  {
    hide Leaves, Traps, Step, MemoryKept, Used, Fetches;
    Extended(raw);
    var v := ImmediateStep(c, raw, ImmediateOf(Opcode(raw)));
  }

  /** ANDI, ORI and XORI (opcodes 12 to 14) do not extend the sign. */
  lemma ImmediateLogic(c: Cpu, raw: Word) returns (v: Word)
    requires Boundary(c) && Fetches(c, raw) && 12 <= Opcode(raw) <= 14
    ensures Leaves(c, Step(c), Rt(raw), v, Onward(c)) && MemoryKept(c, Step(c))
    ensures forall k :: 0 <= k < 32 ==>
              var a, n := Bit(c.regs[Rs(raw)], k), Bit(raw % 0x1_0000, k);
              && (Opcode(raw) == 12 ==> (Bit(v, k) <==> a && n))
              && (Opcode(raw) == 13 ==> (Bit(v, k) <==> a || n))
              && (Opcode(raw) == 14 ==> (Bit(v, k) <==> a != n))
  {
    hide Leaves, Traps, Step, MemoryKept, Used, Fetches, Bit, BitAnd, BitOr, BitXor;
    Extended(raw);
    v := ImmediateStep(c, raw, ImmediateOf(Opcode(raw)));
    var a, n := c.regs[Rs(raw)], raw % 0x1_0000;
    forall k | 0 <= k < 32
      ensures Bit(BitAnd(a, n), k) <==> Bit(a, k) && Bit(n, k)
      ensures Bit(BitOr(a, n), k) <==> Bit(a, k) || Bit(n, k)
      ensures Bit(BitXor(a, n), k) <==> Bit(a, k) != Bit(n, k)
    {
      BitwiseBits(a, n, k);
    }
  }

  // ---- the multiplier's registers ----

  /** MFHI, MTHI, MFLO and MTLO (functions 16 to 19). */
  lemma Moves(c: Cpu, raw: Word)
    requires Boundary(c) && Fetches(c, raw) && Opcode(raw) == 0 && 16 <= FunctCode(raw) <= 19
    ensures MemoryKept(c, Step(c))
    ensures FunctCode(raw) == 16 ==> Leaves(c, Step(c), Rd(raw), c.regs[32], Onward(c))
    ensures FunctCode(raw) == 17 ==> Leaves(c, Step(c), 0, 0, Onward(c).(hi := c.regs[Rs(raw)]))
    ensures FunctCode(raw) == 18 ==> Leaves(c, Step(c), Rd(raw), c.regs[33], Onward(c))
    ensures FunctCode(raw) == 19 ==> Leaves(c, Step(c), 0, 0, Onward(c).(lo := c.regs[Rs(raw)]))
  {
    hide Leaves, Step, Decode, Fetches;
    Fetched(c, raw);
    var f := FunctCode(raw);
    Decoded(raw, Move(if f == 16 then MFHI else if f == 17 then MTHI else if f == 18 then MFLO else MTLO));
    hide EncodingOf, HasEncoding;
    if f == 16 {
      Retired(c, raw, Rd(raw), c.regs[32], Onward(c));
    } else if f == 17 {
      Retired(c, raw, 0, 0, Onward(c).(hi := c.regs[Rs(raw)]));
    } else if f == 18 {
      Retired(c, raw, Rd(raw), c.regs[33], Onward(c));
    } else {
      Retired(c, raw, 0, 0, Onward(c).(lo := c.regs[Rs(raw)]));
    }
  }

  /** MULT, MULTU, DIV and DIVU (functions 24 to 27) leave a pair of words. */
  lemma Products(c: Cpu, raw: Word) returns (hi: Word, lo: Word)
    requires Boundary(c) && Fetches(c, raw) && Opcode(raw) == 0 && 24 <= FunctCode(raw) <= 27
    ensures Leaves(c, Step(c), 0, 0, Onward(c).(hi := hi, lo := lo)) && MemoryKept(c, Step(c))
    ensures FunctCode(raw) == 24 ==> IsProduct(Signed(c.regs[Rs(raw)]), Signed(c.regs[Rt(raw)]), Signed(hi), lo)
    ensures FunctCode(raw) == 25 ==> IsProduct(c.regs[Rs(raw)], c.regs[Rt(raw)], hi, lo)
    ensures FunctCode(raw) >= 26 && c.regs[Rt(raw)] == 0 ==> hi == 0 && lo == 0
    ensures FunctCode(raw) == 26 && c.regs[Rt(raw)] != 0 && Fits(Signed(c.regs[Rs(raw)]), Signed(c.regs[Rt(raw)])) ==>
              IsQuotient(Signed(c.regs[Rs(raw)]), Signed(c.regs[Rt(raw)]), Signed(lo), Signed(hi))
    ensures FunctCode(raw) == 27 && c.regs[Rt(raw)] != 0 ==> IsQuotient(c.regs[Rs(raw)], c.regs[Rt(raw)], lo, hi)
  {
    hide Leaves, Step, Decode, Fetches, HiLo;
    Fetched(c, raw);
    var f := FunctCode(raw);
    var op := if f == 24 then MULT else if f == 25 then MULTU else if f == 26 then DIV else DIVU;
    Decoded(raw, MulDiv(op));
    hide EncodingOf, HasEncoding;
    var pair := HiLo(op, c.regs[Rs(raw)], c.regs[Rt(raw)]);
    hi, lo := pair.0, pair.1;
    Retired(c, raw, 0, 0, Onward(c).(hi := hi, lo := lo));
    PairMeans(op, c.regs[Rs(raw)], c.regs[Rt(raw)]);
  }
}
