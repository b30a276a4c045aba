/**
 Theorems about whole instructions of the reference machine: when exactly landing a pending load early is
 invisible, that faults are restartable, and that R0 stays zero.
 */
module DelayedLoads {
  import opened Words
  import opened PagedMemory
  import opened Isa
  import opened Decoding
  import opened Options

  /** General registers whose old value an instruction uses (the merge of LWL and LWR is not a use). */
  function Reads(i: Instr): set<int> {
    match i.op
    case AluR(op) => if op.SLL? || op.SRA? || op.SRL? then {i.rt} else {i.rs, i.rt}
    case AluI(op) => if op.LUI? then {} else {i.rs}
    case Branch(op) => if op.BEQ? || op.BNE? then {i.rs, i.rt} else {i.rs}
    case Jump(op) => if op.JR? || op.JALR? then {i.rs} else {}
    case MulDiv(_) => {i.rs, i.rt}
    case Move(op) => if op.MTHI? || op.MTLO? then {i.rs} else {}
    case Load(_) => {i.rs}
    case Store(_) => {i.rs, i.rt}
    case _ => {}
  }

  /** The general register an instruction writes at once, that is, other than by a delayed load. */
  function Writes(i: Instr): set<int> {
    match i.op
    case AluR(_) => {i.rd}
    case AluI(_) => {i.rt}
    case Branch(op) => if op.BGEZAL? || op.BLTZAL? then {R31} else {}
    case Jump(op) => if op.JAL? then {R31} else if op.JALR? then {i.rd} else {}
    case Move(op) => if op.MFHI? || op.MFLO? then {i.rd} else {}
    case _ => {}
  }

  /** The instruction does not notice whether the pending load has landed. */
  predicate Unhurried(c: Cpu, i: Instr)
    requires Boundary(c)
  {
    var r := c.regs[LOAD_REG];
    if r == 0 then c.regs[LOAD_VALUE] == 0 || !((i.op == Load(LWL) || i.op == Load(LWR)) && i.rt == 0)
    else r !in Reads(i) && r !in Writes(i)
  }

  /** What an interrupt or an exception does to a pending load (interrupt.cc:309-311). */
  function Commit(c: Cpu): Cpu
    requires Boundary(c)
  {
    c.(regs := DelayedLoad(c.regs, 0, 0))
  }

  /** A general register once the pending load has landed. */
  function Landing(c: Cpu, k: Reg): Word
    requires Boundary(c)
  { if k == 0 then 0 else if k == c.regs[LOAD_REG] then c.regs[LOAD_VALUE] else c.regs[k] }

  /** An effect computed before the load landed, corrected to one computed after. */
  function Landed(e: Effect, r: int, v: Word): Effect
    requires 0 <= r < 32
    requires e.Retire? ==> |e.regs| == NUM_REGS
  {
    if e.Trap? then e
    else
      var g := e.regs[LOAD_REG := 0][LOAD_VALUE := 0];
      e.(regs := if r == 0 then g else g[r := v])
  }

  lemma CommitOnlyTarget(c: Cpu, k: int)
    requires Boundary(c) && 0 <= k < NUM_REGS
    ensures Boundary(Commit(c))
    ensures Commit(c).regs[k] ==
            if k == LOAD_REG || k == LOAD_VALUE || k == 0 then 0
            else if k == c.regs[LOAD_REG] then c.regs[LOAD_VALUE] else c.regs[k]
  {
  }

  lemma SameWrite(c: Cpu, d: Reg, result: Option<Word>)
    requires Boundary(c) && (d == 0 || d != c.regs[LOAD_REG])
    ensures Boundary(Commit(c))
    ensures WriteResult(Commit(c), d, result)
         == Landed(WriteResult(c, d, result), c.regs[LOAD_REG], c.regs[LOAD_VALUE])
  {
    if result.Some? {
      assert WriteResult(Commit(c), d, result).regs
          == Landed(WriteResult(c, d, result), c.regs[LOAD_REG], c.regs[LOAD_VALUE]).regs;
    }
  }

  lemma SameBranch(c: Cpu, op: BranchOp, i: Instr)
    requires Boundary(c) && i.op == Branch(op) && Unhurried(c, i)
    ensures Boundary(Commit(c))
    ensures BranchEffect(Commit(c), op, i) == Landed(BranchEffect(c, op, i), c.regs[LOAD_REG], c.regs[LOAD_VALUE])
  {
    assert BranchEffect(Commit(c), op, i).regs
        == Landed(BranchEffect(c, op, i), c.regs[LOAD_REG], c.regs[LOAD_VALUE]).regs;
  }

  lemma SameJump(c: Cpu, op: JumpOp, i: Instr)
    requires Boundary(c) && i.op == Jump(op) && Unhurried(c, i)
    ensures Boundary(Commit(c))
    ensures JumpEffect(Commit(c), op, i) == Landed(JumpEffect(c, op, i), c.regs[LOAD_REG], c.regs[LOAD_VALUE])
  {
    assert JumpEffect(Commit(c), op, i).regs
        == Landed(JumpEffect(c, op, i), c.regs[LOAD_REG], c.regs[LOAD_VALUE]).regs;
  }

  lemma SameMove(c: Cpu, op: MoveOp, i: Instr)
    requires Boundary(c) && i.op == Move(op) && Unhurried(c, i)
    ensures Boundary(Commit(c))
    ensures MoveEffect(Commit(c), op, i) == Landed(MoveEffect(c, op, i), c.regs[LOAD_REG], c.regs[LOAD_VALUE])
  {
    assert MoveEffect(Commit(c), op, i).regs
        == Landed(MoveEffect(c, op, i), c.regs[LOAD_REG], c.regs[LOAD_VALUE]).regs;
  }

  lemma SamePair(c: Cpu, pair: (Word, Word))
    requires Boundary(c)
    ensures Boundary(Commit(c))
    ensures PairEffect(Commit(c), pair) == Landed(PairEffect(c, pair), c.regs[LOAD_REG], c.regs[LOAD_VALUE])
  {
    assert PairEffect(Commit(c), pair).regs
        == Landed(PairEffect(c, pair), c.regs[LOAD_REG], c.regs[LOAD_VALUE]).regs;
  }

  lemma SameLoad(c: Cpu, op: LoadOp, rt: Reg, ea: Word, base: Word, base': Word)
    requires Boundary(c) && (base == base' || !(op.LWL? || op.LWR?))
    ensures Boundary(Commit(c))
    ensures LoadEffect(Commit(c), op, rt, ea, base')
         == Landed(LoadEffect(c, op, rt, ea, base), c.regs[LOAD_REG], c.regs[LOAD_VALUE])
  {
    hide ReadMem, Touch, AlignDown;
    assert Commit(c).regs == if c.regs[LOAD_REG] == 0 then c.regs[LOAD_REG := 0][LOAD_VALUE := 0]
                             else c.regs[LOAD_REG := 0][LOAD_VALUE := 0][c.regs[LOAD_REG] := c.regs[LOAD_VALUE]];
  }

  lemma SameStore(c: Cpu, op: StoreOp, value: Word, ea: Word)
    requires Boundary(c)
    ensures Boundary(Commit(c))
    ensures StoreEffect(Commit(c), op, value, ea)
         == Landed(StoreEffect(c, op, value, ea), c.regs[LOAD_REG], c.regs[LOAD_VALUE])
  {
    hide ReadMem, WriteMem, Touch, SplitLeft, SplitRight, AlignDown;
    assert Commit(c).regs == if c.regs[LOAD_REG] == 0 then c.regs[LOAD_REG := 0][LOAD_VALUE := 0]
                             else c.regs[LOAD_REG := 0][LOAD_VALUE := 0][c.regs[LOAD_REG] := c.regs[LOAD_VALUE]];
  }

  lemma ShiftsIgnoreRs(op: RegOp, a: Word, a': Word, b: Word, shamt: Word)
    ensures op.SLL? || op.SRA? || op.SRL? ==> RegResult(op, a, b, shamt) == RegResult(op, a', b, shamt)
  {
  }

  lemma LuiIgnoresRs(a: Word, a': Word, imm: Word)
    ensures ImmResult(LUI, a, imm) == ImmResult(LUI, a', imm)
  {
  }

  lemma SameEffect(c: Cpu, i: Instr)
    requires Boundary(c) && Unhurried(c, i)
    ensures Boundary(Commit(c))
    ensures Execute(Commit(c), i) == Landed(Execute(c, i), c.regs[LOAD_REG], c.regs[LOAD_VALUE])
  {
    hide RegResult, ImmResult, HiLo, WriteResult, BranchEffect, JumpEffect, MoveEffect, PairEffect, LoadEffect;
    hide StoreEffect;
    var c' := Commit(c);
    match i.op
    case AluR(op) =>
      SameWrite(c, i.rd, RegResult(op, c.regs[i.rs], c.regs[i.rt], i.extra));
      ShiftsIgnoreRs(op, c.regs[i.rs], c'.regs[i.rs], c.regs[i.rt], i.extra);
    case AluI(op) =>
      SameWrite(c, i.rt, ImmResult(op, c.regs[i.rs], i.extra));
      LuiIgnoresRs(c.regs[i.rs], c'.regs[i.rs], i.extra);
    case Branch(op) => SameBranch(c, op, i);
    case Jump(op) => SameJump(c, op, i);
    case Move(op) => SameMove(c, op, i);
    case MulDiv(op) => SamePair(c, HiLo(op, c.regs[i.rs], c.regs[i.rt]));
    case Load(op) => SameLoad(c, op, i.rt, Effective(c, i), MergeBase(c, i.rt), MergeBase(c', i.rt));
    case Store(op) => SameStore(c, op, c.regs[i.rt], Effective(c, i));
    case _ =>
  }

  /**
   Committing a pending load early gives the same machine after the next instruction, for every
   operation, including LWL and LWR merging into the very register the load is pending on.
   */
  lemma EarlyCommitInvisible(c: Cpu, i: Instr)
    requires Boundary(c) && Unhurried(c, i)
    ensures Boundary(Commit(c)) && Perform(Commit(c), i) == Perform(c, i)
  {
    SameEffect(c, i);
    ExecuteWritesOperands(c, i);
    ExecuteWritesOperands(Commit(c), i);
    var e, e' := Execute(c, i), Execute(Commit(c), i);
    var r, v := c.regs[LOAD_REG], c.regs[LOAD_VALUE];
    if e.Retire? {
      assert DelayedLoad(e'.regs, e'.loadReg, e'.loadValue) == DelayedLoad(e.regs, e.loadReg, e.loadValue);
    } else {
      assert DelayedLoad(Commit(c).regs[BAD_VADDR := e.badVAddr], 0, 0)
          == DelayedLoad(c.regs[BAD_VADDR := e.badVAddr], 0, 0);
    }
  }

  /** The condition matters: an add that reads the pending register agrees only if the load changes nothing. */
  lemma EarlyCommitVisible(c: Cpu, d: Reg)
    requires Boundary(c) && c.regs[LOAD_REG] != 0 && d != 0 && d != c.regs[LOAD_REG]
    ensures var r := c.regs[LOAD_REG];
            var i := Instr(AluR(ADDU), r, 0, d, 0);
            Boundary(Commit(c)) && !Unhurried(c, i) &&
            (Perform(Commit(c), i) == Perform(c, i) <==> c.regs[LOAD_VALUE] == c.regs[r])
  {
    var r := c.regs[LOAD_REG];
    var i := Instr(AluR(ADDU), r, 0, d, 0);
    assert Perform(c, i).cpu.regs[d] == c.regs[r];
    assert Perform(Commit(c), i).cpu.regs[d] == c.regs[LOAD_VALUE];
    if c.regs[LOAD_VALUE] == c.regs[r] {
      assert Perform(Commit(c), i).cpu.regs == Perform(c, i).cpu.regs;
    }
  }

  // ---- fetch, faults and runs ----

  /** One call of `OneInstruction`. */
  function Step(c: Cpu): Outcome
    requires Boundary(c)
  {
    match ReadMem(c.pages, c.mem, c.regs[PC], 4)
    case LoadFault(e) => RaiseException(c, e, c.regs[PC])
    case Loaded(raw) => Perform(c.(pages := Touch(c.pages, c.regs[PC], false)), Decode(raw))
  }

  predicate UnhurriedStep(c: Cpu)
    requires Boundary(c)
  {
    match ReadMem(c.pages, c.mem, c.regs[PC], 4)
    case LoadFault(_) => true
    case Loaded(raw) => Unhurried(c, Decode(raw))
  }

  lemma StepCommits(c: Cpu)
    requires Boundary(c) && UnhurriedStep(c)
    ensures Boundary(Commit(c)) && Step(Commit(c)) == Step(c)
  {
    var c' := Commit(c);
    match ReadMem(c.pages, c.mem, c.regs[PC], 4)
    case LoadFault(e) =>
      assert DelayedLoad(c'.regs[BAD_VADDR := c.regs[PC]], 0, 0) == DelayedLoad(c.regs[BAD_VADDR := c.regs[PC]], 0, 0);
    case Loaded(raw) =>
      var d := c.(pages := Touch(c.pages, c.regs[PC], false));
      EarlyCommitInvisible(d, Decode(raw));
      assert Commit(d) == c'.(pages := d.pages);
  }

  /** R0 is zero and the pending target is a general register at every instruction boundary. */
  lemma StepKeepsBoundary(c: Cpu)
    requires Boundary(c)
    ensures Boundary(Step(c).cpu) && Boundary(Commit(c))
  {
  }

  /** The machine after `n` instructions, with an interrupt after instruction `k` whenever `k in ints`. */
  function Run(c: Cpu, n: nat, ints: set<nat>): (c': Cpu)
    requires Boundary(c)
    ensures Boundary(c')
    decreases n
  {
    if n == 0 then c
    else
      var before := Run(c, n - 1, ints);
      var at := if n - 1 in ints then Commit(before) else before;
      StepKeepsBoundary(before);
      StepKeepsBoundary(at);
      Step(at).cpu
  }

  /**
   Interrupts are transparent: a program whose instructions never look at a load in its delay slot
   reaches the same states wherever interrupts fall.
   */
  lemma {:induction false} InterruptsInvisible(c: Cpu, n: nat, ints: set<nat>)
    requires Boundary(c)
    requires forall k :: 0 <= k < n ==> UnhurriedStep(Run(c, k, {}))
    ensures Run(c, n, ints) == Run(c, n, {})
  {
    hide Step, Commit, UnhurriedStep, Boundary;
    if n > 0 {
      InterruptsInvisible(c, n - 1, ints);
      StepCommits(Run(c, n - 1, {}));
    }
  }

  /**
   A faulting instruction changes no memory, no program counter and no register but BadVAddr and the pending
   target.
   */
  lemma FaultChangesNothing(c: Cpu)
    requires Boundary(c) && Step(c).exception.Some?
    ensures var c' := Step(c).cpu;
            c'.mem == c.mem &&
            |c'.pages| == |c.pages| &&
            (forall k :: 0 <= k < |c.pages| ==>
               c'.pages[k].(use := false, dirty := false) == c.pages[k].(use := false, dirty := false)) &&
            c'.regs == Commit(c).regs[BAD_VADDR := c'.regs[BAD_VADDR]]
  {
    match ReadMem(c.pages, c.mem, c.regs[PC], 4)
    case LoadFault(e) =>
    case Loaded(raw) =>
      TrapPages(c.(pages := Touch(c.pages, c.regs[PC], false)), Decode(raw));
  }

  lemma TrapPages(c: Cpu, i: Instr)
    requires Boundary(c) && Execute(c, i).Trap?
    ensures var p := Execute(c, i).trapPages;
            |p| == |c.pages| && forall k :: 0 <= k < |p| ==>
               p[k].(use := false) == c.pages[k].(use := false)
  {
  }

  /** Two machines that differ at most in the BadVAddr register, which no instruction reads. */
  predicate SameButBadVAddr(c: Cpu, d: Cpu) {
    |c.regs| == NUM_REGS && |d.regs| == NUM_REGS && d == c.(regs := c.regs[BAD_VADDR := d.regs[BAD_VADDR]])
  }

  lemma BadVAddrUnread(c: Cpu, d: Cpu, i: Instr)
    requires Boundary(c) && Boundary(d) && SameButBadVAddr(c, d)
    ensures Perform(c, i).exception == Perform(d, i).exception
    ensures SameButBadVAddr(Perform(c, i).cpu, Perform(d, i).cpu)
  {
    var b := d.regs[BAD_VADDR];
    var e, e' := Execute(c, i), Execute(d, i);
    ExecuteWritesOperands(c, i);
    ExecuteWritesOperands(d, i);
    if e.Retire? {
      BadVAddrEffect(c, d, i);
      assert Perform(d, i).cpu.regs == Perform(c, i).cpu.regs[BAD_VADDR := b];
    } else {
      BadVAddrEffect(c, d, i);
      assert Perform(d, i).cpu.regs == Perform(c, i).cpu.regs;
    }
  }

  lemma BadVAddrEffect(c: Cpu, d: Cpu, i: Instr)
    requires Boundary(c) && Boundary(d) && SameButBadVAddr(c, d)
    ensures var e, e' := Execute(c, i), Execute(d, i);
            (e.Retire? ==> |e.regs| == NUM_REGS) && e' == WithBadVAddr(e, d.regs[BAD_VADDR])
  {
    hide RegResult, ImmResult, HiLo, WriteResult, BranchEffect, JumpEffect, MoveEffect, PairEffect, LoadEffect;
    hide StoreEffect;
    var a, b := c.regs[i.rs], c.regs[i.rt];
    ExecuteWritesOperands(c, i);
    match i.op
    case AluR(op) => SameWriteBad(c, d, i.rd, RegResult(op, a, b, i.extra));
    case AluI(op) => SameWriteBad(c, d, i.rt, ImmResult(op, a, i.extra));
    case Branch(op) => SameBranchBad(c, d, op, i);
    case Jump(op) => SameJumpBad(c, d, op, i);
    case Move(op) => SameMoveBad(c, d, op, i);
    case MulDiv(op) => SamePairBad(c, d, HiLo(op, c.regs[i.rs], c.regs[i.rt]));
    case Load(op) => SameLoadBad(c, d, op, i.rt, Effective(c, i), MergeBase(c, i.rt));
    case Store(op) => SameStoreBad(c, d, op, c.regs[i.rt], Effective(c, i));
    case _ =>
  }

  function WithBadVAddr(e: Effect, b: Word): Effect
    requires e.Retire? ==> |e.regs| == NUM_REGS
  {
    if e.Trap? then e else e.(regs := e.regs[BAD_VADDR := b])
  }

  lemma SameWriteBad(c: Cpu, d: Cpu, r: Reg, result: Option<Word>)
    requires Boundary(c) && Boundary(d) && SameButBadVAddr(c, d)
    ensures WriteResult(d, r, result) == WithBadVAddr(WriteResult(c, r, result), d.regs[BAD_VADDR])
  {
    if result.Some? {
      assert c.regs[r := result.value][BAD_VADDR := d.regs[BAD_VADDR]] == d.regs[r := result.value];
    }
  }

  lemma SameBranchBad(c: Cpu, d: Cpu, op: BranchOp, i: Instr)
    requires Boundary(c) && Boundary(d) && SameButBadVAddr(c, d)
    ensures BranchEffect(d, op, i) == WithBadVAddr(BranchEffect(c, op, i), d.regs[BAD_VADDR])
  {
    assert BranchEffect(d, op, i).regs == BranchEffect(c, op, i).regs[BAD_VADDR := d.regs[BAD_VADDR]];
  }

  lemma SameJumpBad(c: Cpu, d: Cpu, op: JumpOp, i: Instr)
    requires Boundary(c) && Boundary(d) && SameButBadVAddr(c, d)
    ensures JumpEffect(d, op, i) == WithBadVAddr(JumpEffect(c, op, i), d.regs[BAD_VADDR])
  {
    assert JumpEffect(d, op, i).regs == JumpEffect(c, op, i).regs[BAD_VADDR := d.regs[BAD_VADDR]];
  }

  lemma SameMoveBad(c: Cpu, d: Cpu, op: MoveOp, i: Instr)
    requires Boundary(c) && Boundary(d) && SameButBadVAddr(c, d)
    ensures MoveEffect(d, op, i) == WithBadVAddr(MoveEffect(c, op, i), d.regs[BAD_VADDR])
  {
    assert MoveEffect(d, op, i).regs == MoveEffect(c, op, i).regs[BAD_VADDR := d.regs[BAD_VADDR]];
  }

  lemma SamePairBad(c: Cpu, d: Cpu, pair: (Word, Word))
    requires Boundary(c) && Boundary(d) && SameButBadVAddr(c, d)
    ensures PairEffect(d, pair) == WithBadVAddr(PairEffect(c, pair), d.regs[BAD_VADDR])
  {
    assert PairEffect(d, pair).regs == PairEffect(c, pair).regs[BAD_VADDR := d.regs[BAD_VADDR]];
  }

  lemma SameLoadBad(c: Cpu, d: Cpu, op: LoadOp, rt: Reg, ea: Word, base: Word)
    requires Boundary(c) && Boundary(d) && SameButBadVAddr(c, d)
    ensures LoadEffect(d, op, rt, ea, base) == WithBadVAddr(LoadEffect(c, op, rt, ea, base), d.regs[BAD_VADDR])
  {
    hide ReadMem, Touch, AlignDown, LoadedValue;
  }

  lemma SameStoreBad(c: Cpu, d: Cpu, op: StoreOp, value: Word, ea: Word)
    requires Boundary(c) && Boundary(d) && SameButBadVAddr(c, d)
    ensures StoreEffect(d, op, value, ea) == WithBadVAddr(StoreEffect(c, op, value, ea), d.regs[BAD_VADDR])
  {
    hide ReadMem, WriteMem, Touch, SplitLeft, SplitRight, AlignDown;
  }

  /**
   Restart: once the kernel has repaired the page table, running the faulting instruction again
   does what it would have done had the repaired table been there from the start.
   */
  lemma FaultRestarts(c: Cpu, repaired: PageTable)
    requires Boundary(c) && Step(c).exception.Some?
    requires UnhurriedStep(c.(pages := repaired))
    ensures var fixed := c.(pages := repaired);
            var again := Step(c).cpu.(pages := repaired);
            Boundary(again) && Boundary(fixed) &&
            Step(again).exception == Step(fixed).exception &&
            SameButBadVAddr(Step(fixed).cpu, Step(again).cpu)
  {
    hide Perform, Execute, Touch, Decode, UnhurriedStep;
    FaultChangesNothing(c);
    StepKeepsBoundary(c);
    var fixed := c.(pages := repaired);
    var again := Step(c).cpu.(pages := repaired);
    StepCommits(fixed);
    var landed := Commit(fixed);
    assert SameButBadVAddr(landed, again);
    match ReadMem(repaired, c.mem, c.regs[PC], 4)
    case LoadFault(e) =>
      assert Step(again).cpu.regs == Step(landed).cpu.regs;
    case Loaded(raw) =>
      var t := Touch(repaired, c.regs[PC], false);
      BadVAddrUnread(landed.(pages := t), again.(pages := t), Decode(raw));
  }
}
