/**
 Exactly which instructions can follow a load: for every operation, the condition on its operands under
 which landing the pending load before the instruction, as an interrupt does, makes no difference.
 */
module DelaySlots {
  import opened Words
  import opened Bitwise
  import opened PagedMemory
  import opened Isa
  import opened Decoding
  import opened Options
  import opened DelayedLoads

  /** Does register `d` end up the same, written at once with `x` before the load lands, or with `x'` after it has? */
  predicate SameWritten(c: Cpu, d: int, x: Word, x': Word)
    requires Boundary(c) && 0 <= d < PC
  { d == 0 || x' == if d == c.regs[LOAD_REG] then c.regs[LOAD_VALUE] else x }

  predicate SameResult(c: Cpu, d: Reg, x: Option<Word>, x': Option<Word>)
    requires Boundary(c)
  { x.Some? == x'.Some? && (x.Some? ==> SameWritten(c, d, x.value, x'.value)) }

  predicate SameBranchTaken(c: Cpu, op: BranchOp, i: Instr)
    requires Boundary(c)
  {
    var next := Sequential(c);
    var link := op.BGEZAL? || op.BLTZAL?;
    var a, b := if link && i.rs == R31 then next else c.regs[i.rs], if link && i.rt == R31 then next else c.regs[i.rt];
    var a' := if link && i.rs == R31 then next else Landing(c, i.rs);
    var b' := if link && i.rt == R31 then next else Landing(c, i.rt);
    && (link ==> SameWritten(c, R31, next, next))
    && (Taken(op, a, b) == Taken(op, a', b') || Wrap(c.regs[NEXT_PC] + 4 * i.extra) == next)
  }

  predicate SameJumpTarget(c: Cpu, op: JumpOp, i: Instr)
    requires Boundary(c)
  {
    match op
    case J => true
    case JAL => SameWritten(c, R31, Sequential(c), Sequential(c))
    case JR => Landing(c, i.rs) == c.regs[i.rs]
    case JALR =>
      && SameWritten(c, i.rd, Sequential(c), Sequential(c))
      && (i.rs == i.rd || Landing(c, i.rs) == c.regs[i.rs])
  }

  predicate SameMoved(c: Cpu, op: MoveOp, i: Instr)
    requires Boundary(c)
  {
    match op
    case MFHI => SameWritten(c, i.rd, c.regs[HI], c.regs[HI])
    case MFLO => SameWritten(c, i.rd, c.regs[LO], c.regs[LO])
    case MTHI => Landing(c, i.rs) == c.regs[i.rs]
    case MTLO => Landing(c, i.rs) == c.regs[i.rs]
  }

  /** The same exception, or the same value loaded and the same page-table bits set. */
  predicate SameLoaded(c: Cpu, op: LoadOp, i: Instr)
    requires Boundary(c)
  {
    LoadEffect(c, op, i.rt, Effective(c, i), MergeBase(c, i.rt))
    == LoadEffect(c, op, i.rt, Wrap(Landing(c, i.rs) + i.extra), Landing(c, i.rt))
  }

  /** The same exception, or the same bytes of memory stored and the same page-table bits set. */
  predicate SameStored(c: Cpu, op: StoreOp, i: Instr)
    requires Boundary(c)
  {
    StoreEffect(c, op, c.regs[i.rt], Effective(c, i))
    == StoreEffect(c, op, Landing(c, i.rt), Wrap(Landing(c, i.rs) + i.extra))
  }

  /** The operands make no difference between landing the load early and late. */
  predicate Invisible(c: Cpu, i: Instr)
    requires Boundary(c)
  {
    match i.op
    case AluR(op) =>
      SameResult(c, i.rd, RegResult(op, c.regs[i.rs], c.regs[i.rt], i.extra),
        RegResult(op, Landing(c, i.rs), Landing(c, i.rt), i.extra))
    case AluI(op) =>
      SameResult(c, i.rt, ImmResult(op, c.regs[i.rs], i.extra), ImmResult(op, Landing(c, i.rs), i.extra))
    case Branch(op) => SameBranchTaken(c, op, i)
    case Jump(op) => SameJumpTarget(c, op, i)
    case Move(op) => SameMoved(c, op, i)
    case MulDiv(op) => HiLo(op, c.regs[i.rs], c.regs[i.rt]) == HiLo(op, Landing(c, i.rs), Landing(c, i.rt))
    case Load(op) => SameLoaded(c, op, i)
    case Store(op) => SameStored(c, op, i)
    case _ => true
  }

  // ---- reduction to the effects ----

  /**
   The two effects lead to the same machine: `e` with the load landing after it, `e'` with the load already
   landed.
   */
  predicate Meet(c: Cpu, e: Effect, e': Effect)
    requires Boundary(c)
    requires e.Retire? ==> |e.regs| == NUM_REGS
    requires e'.Retire? ==> |e'.regs| == NUM_REGS
  {
    if e.Trap? || e'.Trap? then e == e'
    else
      && e'.mem == e.mem && e'.pages == e.pages && e'.pcAfter == e.pcAfter && e'.loadReg == e.loadReg
      && e'.loadValue == e.loadValue
      && forall k :: 0 < k < PC ==> e'.regs[k] == if k == c.regs[LOAD_REG] then c.regs[LOAD_VALUE] else e.regs[k]
  }

  lemma CommitRegs(c: Cpu, k: int)
    requires Boundary(c) && 0 <= k < NUM_REGS
    ensures Boundary(Commit(c)) && Commit(c).mem == c.mem && Commit(c).pages == c.pages
    ensures k < 32 ==> Commit(c).regs[k] == Landing(c, k)
    ensures 32 <= k && k != LOAD_REG && k != LOAD_VALUE ==> Commit(c).regs[k] == c.regs[k]
    ensures Commit(c).regs[LOAD_REG] == 0 && Commit(c).regs[LOAD_VALUE] == 0
  {
  }

  /** Register `k` when an instruction with this effect has retired, the load `(r, v)` landing after it. */
  function Final(c: Cpu, e: Effect, r: int, v: Word, k: int): Word
    requires Boundary(c) && e.Retire? && |e.regs| == NUM_REGS && 0 <= k < NUM_REGS
  {
    if k == 0 then 0
    else if k < PC then (if k == r then v else e.regs[k])
    else if k == PC then c.regs[NEXT_PC]
    else if k == NEXT_PC then e.pcAfter
    else if k == PREV_PC then c.regs[PC]
    else if k == LOAD_REG then e.loadReg
    else if k == LOAD_VALUE then e.loadValue
    else c.regs[BAD_VADDR]
  }

  lemma RetiredRegs(c: Cpu, i: Instr, k: int)
    requires Boundary(c) && Execute(c, i).Retire? && 0 <= k < NUM_REGS
    ensures |Execute(c, i).regs| == NUM_REGS && |Perform(c, i).cpu.regs| == NUM_REGS
    ensures Perform(c, i).cpu.regs[k] == Final(c, Execute(c, i), c.regs[LOAD_REG], c.regs[LOAD_VALUE], k)
  {
    ExecuteWritesOperands(c, i);
    hide Execute;
  }

  lemma RetiredLate(c: Cpu, i: Instr)
    requires Boundary(c) && Execute(c, i).Retire?
    ensures |Execute(c, i).regs| == NUM_REGS
    ensures Perform(c, i).exception.None? && Perform(c, i).cpu.mem == Execute(c, i).mem
    ensures Perform(c, i).cpu.pages == Execute(c, i).pages
  {
    ExecuteWritesOperands(c, i);
    hide Execute;
  }

  lemma TrappedRegs(c: Cpu, i: Instr)
    requires Boundary(c) && Execute(c, i).Trap?
    ensures var e := Execute(c, i);
            && Perform(c, i).exception == Some(e.exception) && Perform(c, i).cpu.mem == c.mem
            && Perform(c, i).cpu.pages == e.trapPages
            && Boundary(Commit(c)) && Perform(c, i).cpu.regs == Commit(c).regs[BAD_VADDR := e.badVAddr]
  {
    hide Execute;
    var e := Execute(c, i);
    assert DelayedLoad(c.regs[BAD_VADDR := e.badVAddr], 0, 0) == DelayedLoad(c.regs, 0, 0)[BAD_VADDR := e.badVAddr];
  }

  lemma CommitAgain(c: Cpu)
    requires Boundary(c)
    ensures Boundary(Commit(c)) && Commit(Commit(c)).regs == Commit(c).regs
  {
  }

  lemma BothTrapped(c: Cpu, i: Instr)
    requires Boundary(c) && Boundary(Commit(c)) && Execute(c, i).Trap? && Execute(Commit(c), i).Trap?
    ensures Perform(Commit(c), i) == Perform(c, i) <==> Execute(c, i) == Execute(Commit(c), i)
  {
    hide Execute, Perform, Commit;
    var e, e' := Execute(c, i), Execute(Commit(c), i);
    TrappedRegs(c, i);
    TrappedRegs(Commit(c), i);
    CommitAgain(c);
    CommitRegs(c, 0);
    assert Perform(c, i).cpu.regs[BAD_VADDR] == e.badVAddr;
    assert Perform(Commit(c), i).cpu.regs[BAD_VADDR] == e'.badVAddr;
  }

  lemma BothRetired(c: Cpu, i: Instr)
    requires Boundary(c) && Boundary(Commit(c)) && Execute(c, i).Retire? && Execute(Commit(c), i).Retire?
    ensures |Execute(c, i).regs| == NUM_REGS == |Execute(Commit(c), i).regs|
    ensures Perform(Commit(c), i) == Perform(c, i) <==> Meet(c, Execute(c, i), Execute(Commit(c), i))
  {
    hide Execute, Perform, Commit;
    var c' := Commit(c);
    var e, e' := Execute(c, i), Execute(c', i);
    RetiredLate(c, i);
    RetiredLate(c', i);
    CommitRegs(c, LOAD_REG);
    CommitRegs(c, PC);
    CommitRegs(c, NEXT_PC);
    CommitRegs(c, BAD_VADDR);
    RetiredRegs(c, i, 0);
    RetiredRegs(c', i, 0);
    var regs, regs' := Perform(c, i).cpu.regs, Perform(c', i).cpu.regs;
    forall k | 0 <= k < NUM_REGS
      ensures regs[k] == regs'[k] <==> Agrees(c, e, e', k)
    {
      RetiredRegs(c, i, k);
      RetiredRegs(c', i, k);
      FinalsAgree(c, c', e, e', k);
    }
    hide Agrees, Final;
    assert regs == regs' <==> forall k :: 0 <= k < NUM_REGS ==> Agrees(c, e, e', k);
    AllAgree(c, e, e');
  }

  /** What the effects must have in common for register `k` to end up the same. */
  predicate Agrees(c: Cpu, e: Effect, e': Effect, k: int)
    requires Boundary(c) && e.Retire? && e'.Retire? && |e.regs| == NUM_REGS == |e'.regs|
  {
    && (0 < k < PC ==> e'.regs[k] == if k == c.regs[LOAD_REG] then c.regs[LOAD_VALUE] else e.regs[k])
    && (k == NEXT_PC ==> e'.pcAfter == e.pcAfter) && (k == LOAD_REG ==> e'.loadReg == e.loadReg)
    && (k == LOAD_VALUE ==> e'.loadValue == e.loadValue)
  }

  lemma FinalsAgree(c: Cpu, c': Cpu, e: Effect, e': Effect, k: int)
    requires Boundary(c) && Boundary(c') && e.Retire? && e'.Retire? && |e.regs| == NUM_REGS == |e'.regs|
    requires 0 <= k < NUM_REGS
    requires c'.regs[PC] == c.regs[PC] && c'.regs[NEXT_PC] == c.regs[NEXT_PC] && c'.regs[BAD_VADDR] == c.regs[BAD_VADDR]
    ensures Final(c, e, c.regs[LOAD_REG], c.regs[LOAD_VALUE], k) == Final(c', e', 0, 0, k) <==> Agrees(c, e, e', k)
  {
  }

  lemma AllAgree(c: Cpu, e: Effect, e': Effect)
    requires Boundary(c) && e.Retire? && e'.Retire? && |e.regs| == NUM_REGS == |e'.regs|
    ensures (forall k :: 0 <= k < NUM_REGS ==> Agrees(c, e, e', k)) <==>
            && e'.pcAfter == e.pcAfter && e'.loadReg == e.loadReg && e'.loadValue == e.loadValue
            && forall k :: 0 < k < PC ==> e'.regs[k] == if k == c.regs[LOAD_REG] then c.regs[LOAD_VALUE] else e.regs[k]
  {
    if forall k :: 0 <= k < NUM_REGS ==> Agrees(c, e, e', k) {
      assert Agrees(c, e, e', NEXT_PC) && Agrees(c, e, e', LOAD_REG) && Agrees(c, e, e', LOAD_VALUE);
      forall k | 0 < k < PC
        ensures e'.regs[k] == if k == c.regs[LOAD_REG] then c.regs[LOAD_VALUE] else e.regs[k]
      {
        assert Agrees(c, e, e', k);
      }
    }
  }

  /** Early and late landing agree exactly when the effects meet. */
  lemma PerformsMeet(c: Cpu, i: Instr)
    requires Boundary(c) && Boundary(Commit(c))
    ensures Execute(c, i).Retire? ==> |Execute(c, i).regs| == NUM_REGS
    ensures Execute(Commit(c), i).Retire? ==> |Execute(Commit(c), i).regs| == NUM_REGS
    ensures Perform(Commit(c), i) == Perform(c, i) <==> Meet(c, Execute(c, i), Execute(Commit(c), i))
  {
    hide Execute, Perform, Commit;
    var e, e' := Execute(c, i), Execute(Commit(c), i);
    if e.Retire? { RetiredLate(c, i); } else { TrappedRegs(c, i); }
    if e'.Retire? { RetiredLate(Commit(c), i); } else { TrappedRegs(Commit(c), i); }
    if e.Retire? && e'.Retire? {
      BothRetired(c, i);
    } else if e.Trap? && e'.Trap? {
      BothTrapped(c, i);
    }
  }

  // ---- one operation at a time ----

  /** The registers after a write, with the load landing after it or before it. */
  predicate WritesMeet(c: Cpu, regs: seq<Word>, regs': seq<Word>)
    requires Boundary(c) && |regs| == NUM_REGS == |regs'|
  { forall k :: 0 < k < PC ==> regs'[k] == if k == c.regs[LOAD_REG] then c.regs[LOAD_VALUE] else regs[k] }

  lemma WriteMeets(c: Cpu, d: int, x: Word, x': Word)
    requires Boundary(c) && 0 <= d < PC
    ensures Boundary(Commit(c))
    ensures WritesMeet(c, c.regs[d := x], Commit(c).regs[d := x']) <==> SameWritten(c, d, x, x')
  {
    hide Commit;
    CommitRegs(c, 0);
    forall k | 0 < k < PC
      ensures Commit(c).regs[k] == if k == c.regs[LOAD_REG] then c.regs[LOAD_VALUE] else c.regs[k]
    {
      CommitRegs(c, k);
    }
    var regs, regs' := c.regs[d := x], Commit(c).regs[d := x'];
    if d > 0 {
      assert WritesMeet(c, regs, regs') ==> regs'[d] == if d == c.regs[LOAD_REG] then c.regs[LOAD_VALUE] else regs[d];
    }
  }

  lemma NoWriteMeets(c: Cpu)
    requires Boundary(c)
    ensures Boundary(Commit(c)) && WritesMeet(c, c.regs, Commit(c).regs)
  {
    forall k | 0 < k < PC
      ensures Commit(c).regs[k] == if k == c.regs[LOAD_REG] then c.regs[LOAD_VALUE] else c.regs[k]
    {
      CommitRegs(c, k);
    }
  }

  lemma ResultMeets(c: Cpu, d: Reg, x: Option<Word>, x': Option<Word>)
    requires Boundary(c) && Boundary(Commit(c))
    ensures Meet(c, WriteResult(c, d, x), WriteResult(Commit(c), d, x')) <==> SameResult(c, d, x, x')
  {
    hide Commit, SameWritten;
    CommitRegs(c, NEXT_PC);
    if x.Some? && x'.Some? {
      WriteMeets(c, d, x.value, x'.value);
    }
  }

  lemma PairMeets(c: Cpu, pair: (Word, Word), pair': (Word, Word))
    requires Boundary(c) && Boundary(Commit(c))
    ensures Meet(c, PairEffect(c, pair), PairEffect(Commit(c), pair')) <==> pair == pair'
  {
    hide Commit;
    CommitRegs(c, NEXT_PC);
    CommitRegs(c, 0);
    NoWriteMeets(c);
    var e, e' := PairEffect(c, pair), PairEffect(Commit(c), pair');
    assert e.regs[HI] == pair.0 && e.regs[LO] == pair.1 && e'.regs[HI] == pair'.0 && e'.regs[LO] == pair'.1;
    assert forall k :: 0 < k < 32 ==> e.regs[k] == c.regs[k] && e'.regs[k] == Commit(c).regs[k];
  }

  lemma MoveMeets(c: Cpu, op: MoveOp, i: Instr)
    requires Boundary(c) && Boundary(Commit(c)) && i.op == Move(op)
    ensures Meet(c, MoveEffect(c, op, i), MoveEffect(Commit(c), op, i)) <==> SameMoved(c, op, i)
  {
    hide Commit, Landing;
    CommitRegs(c, NEXT_PC);
    CommitRegs(c, HI);
    CommitRegs(c, LO);
    CommitRegs(c, i.rs);
    match op
    case MFHI => WriteMeets(c, i.rd, c.regs[HI], c.regs[HI]);
    case MFLO => WriteMeets(c, i.rd, c.regs[LO], c.regs[LO]);
    case MTHI => WriteMeets(c, HI, c.regs[i.rs], Landing(c, i.rs));
    case MTLO => WriteMeets(c, LO, c.regs[i.rs], Landing(c, i.rs));
  }

  lemma JumpMeets(c: Cpu, op: JumpOp, i: Instr)
    requires Boundary(c) && Boundary(Commit(c)) && i.op == Jump(op)
    ensures Meet(c, JumpEffect(c, op, i), JumpEffect(Commit(c), op, i)) <==> SameJumpTarget(c, op, i)
  {
    hide Commit, Landing, SameWritten;
    CommitRegs(c, NEXT_PC);
    CommitRegs(c, i.rs);
    match op
    case J => NoWriteMeets(c);
    case JAL => WriteMeets(c, R31, Sequential(c), Sequential(c));
    case JR => NoWriteMeets(c);
    case JALR => WriteMeets(c, i.rd, Sequential(c), Sequential(c));
  }

  lemma BranchMeets(c: Cpu, op: BranchOp, i: Instr)
    requires Boundary(c) && Boundary(Commit(c)) && i.op == Branch(op)
    ensures Meet(c, BranchEffect(c, op, i), BranchEffect(Commit(c), op, i)) <==> SameBranchTaken(c, op, i)
  {
    hide Commit, Landing, SameWritten, Taken;
    CommitRegs(c, NEXT_PC);
    CommitRegs(c, i.rs);
    CommitRegs(c, i.rt);
    if op.BGEZAL? || op.BLTZAL? {
      WriteMeets(c, R31, Sequential(c), Sequential(c));
    } else {
      NoWriteMeets(c);
    }
  }

  /** An effect that leaves the registers alone. */
  lemma PlainMeets(c: Cpu, e: Effect, e2: Effect)
    requires Boundary(c) && Boundary(Commit(c))
    requires e.Retire? ==> e.regs == c.regs
    requires e2.Retire? ==> e2.regs == c.regs
    ensures Meet(c, e, if e2.Retire? then e2.(regs := Commit(c).regs) else e2)
      <==> e == e2 || (e.Retire? && e2.Retire? && e2.(regs := c.regs) == e)
  {
    hide Commit;
    CommitRegs(c, 0);
    NoWriteMeets(c);
  }

  lemma LoadMoves(c: Cpu, op: LoadOp, rt: Reg, ea: Word, base: Word)
    requires Boundary(c) && Boundary(Commit(c))
    ensures var e2 := LoadEffect(c, op, rt, ea, base);
            && LoadEffect(Commit(c), op, rt, ea, base) == (if e2.Retire? then e2.(regs := Commit(c).regs) else e2)
            && (e2.Retire? ==> e2.regs == c.regs)
  {
    hide Commit, LoadedValue;
    CommitRegs(c, NEXT_PC);
  }

  lemma StoreMoves(c: Cpu, op: StoreOp, value: Word, ea: Word)
    requires Boundary(c) && Boundary(Commit(c))
    ensures var e2 := StoreEffect(c, op, value, ea);
            && StoreEffect(Commit(c), op, value, ea) == (if e2.Retire? then e2.(regs := Commit(c).regs) else e2)
            && (e2.Retire? ==> e2.regs == c.regs)
  {
    hide Commit, SplitLeft, SplitRight;
    CommitRegs(c, NEXT_PC);
  }

  lemma MergeBaseLanding(c: Cpu, r: Reg)
    requires Boundary(c) && Boundary(Commit(c))
    ensures MergeBase(Commit(c), r) == Landing(c, r)
  {
    hide Commit;
    CommitRegs(c, r);
  }

  lemma LoadMeets(c: Cpu, op: LoadOp, i: Instr)
    requires Boundary(c) && Boundary(Commit(c)) && i.op == Load(op)
    ensures Execute(c, i).Retire? ==> |Execute(c, i).regs| == NUM_REGS
    ensures Execute(Commit(c), i).Retire? ==> |Execute(Commit(c), i).regs| == NUM_REGS
    ensures Meet(c, Execute(c, i), Execute(Commit(c), i)) <==> SameLoaded(c, op, i)
  {
    hide Commit, Landing, LoadEffect, MergeBase, Meet;
    CommitRegs(c, i.rs);
    MergeBaseLanding(c, i.rt);
    LoadMoves(c, op, i.rt, Effective(c, i), MergeBase(c, i.rt));
    LoadMoves(c, op, i.rt, Wrap(Landing(c, i.rs) + i.extra), Landing(c, i.rt));
    PlainMeets(c, LoadEffect(c, op, i.rt, Effective(c, i), MergeBase(c, i.rt)),
               LoadEffect(c, op, i.rt, Wrap(Landing(c, i.rs) + i.extra), Landing(c, i.rt)));
  }

  lemma StoreMeets(c: Cpu, op: StoreOp, i: Instr)
    requires Boundary(c) && Boundary(Commit(c)) && i.op == Store(op)
    ensures Execute(c, i).Retire? ==> |Execute(c, i).regs| == NUM_REGS
    ensures Execute(Commit(c), i).Retire? ==> |Execute(Commit(c), i).regs| == NUM_REGS
    ensures Meet(c, Execute(c, i), Execute(Commit(c), i)) <==> SameStored(c, op, i)
  {
    hide Commit, Landing, StoreEffect, Meet;
    CommitRegs(c, i.rs);
    CommitRegs(c, i.rt);
    StoreMoves(c, op, c.regs[i.rt], Effective(c, i));
    StoreMoves(c, op, Landing(c, i.rt), Wrap(Landing(c, i.rs) + i.extra));
    PlainMeets(c, StoreEffect(c, op, c.regs[i.rt], Effective(c, i)),
               StoreEffect(c, op, Landing(c, i.rt), Wrap(Landing(c, i.rs) + i.extra)));
  }

  lemma ArithmeticMeets(c: Cpu, i: Instr)
    requires Boundary(c) && Boundary(Commit(c)) && (i.op.AluR? || i.op.AluI? || i.op.MulDiv?)
    ensures Execute(c, i).Retire? ==> |Execute(c, i).regs| == NUM_REGS
    ensures Execute(Commit(c), i).Retire? ==> |Execute(Commit(c), i).regs| == NUM_REGS
    ensures Meet(c, Execute(c, i), Execute(Commit(c), i)) <==> Invisible(c, i)
  {
    hide Commit, Landing, Meet, RegResult, ImmResult, HiLo, SameResult;
    CommitRegs(c, i.rs);
    CommitRegs(c, i.rt);
    var a, b, a', b' := c.regs[i.rs], c.regs[i.rt], Landing(c, i.rs), Landing(c, i.rt);
    match i.op
    case AluR(op) => ResultMeets(c, i.rd, RegResult(op, a, b, i.extra), RegResult(op, a', b', i.extra));
    case AluI(op) => ResultMeets(c, i.rt, ImmResult(op, a, i.extra), ImmResult(op, a', i.extra));
    case MulDiv(op) => PairMeets(c, HiLo(op, a, b), HiLo(op, a', b'));
  }

  /** For every operation the effects meet exactly when the operands make no difference. */
  lemma EffectsMeet(c: Cpu, i: Instr)
    requires Boundary(c) && Boundary(Commit(c))
    ensures Execute(c, i).Retire? ==> |Execute(c, i).regs| == NUM_REGS
    ensures Execute(Commit(c), i).Retire? ==> |Execute(Commit(c), i).regs| == NUM_REGS
    ensures Meet(c, Execute(c, i), Execute(Commit(c), i)) <==> Invisible(c, i)
  {
    hide Commit, Landing, LoadEffect, StoreEffect, BranchEffect, JumpEffect, MoveEffect, PairEffect, WriteResult;
    hide RegResult, ImmResult, HiLo, SameLoaded, SameStored, SameBranchTaken, SameJumpTarget, SameMoved, SameResult;
    ExecuteWritesOperands(c, i);
    ExecuteWritesOperands(Commit(c), i);
    CommitRegs(c, 0);
    match i.op
    case Branch(op) => BranchMeets(c, op, i);
    case Jump(op) => JumpMeets(c, op, i);
    case Move(op) => MoveMeets(c, op, i);
    case Load(op) => LoadMeets(c, op, i);
    case Store(op) => StoreMeets(c, op, i);
    case AluR(_) => ArithmeticMeets(c, i);
    case AluI(_) => ArithmeticMeets(c, i);
    case MulDiv(_) => ArithmeticMeets(c, i);
    case _ =>
  }

  // ---- the theorems ----

  /** Landing the pending load before an instruction is invisible if and only if its operands say so. */
  lemma EarlyCommitExact(c: Cpu, i: Instr)
    requires Boundary(c)
    ensures Boundary(Commit(c)) && (Perform(Commit(c), i) == Perform(c, i) <==> Invisible(c, i))
  {
    CommitRegs(c, 0);
    hide Commit, Perform, Execute, Meet, Invisible;
    PerformsMeet(c, i);
    EffectsMeet(c, i);
  }

  /** The instruction at the program counter, if it can be fetched, does not notice. */
  predicate InvisibleStep(c: Cpu)
    requires Boundary(c)
  {
    match ReadMem(c.pages, c.mem, c.regs[PC], 4)
    case LoadFault(_) => true
    case Loaded(raw) => Invisible(c.(pages := Touch(c.pages, c.regs[PC], false)), Decode(raw))
  }

  lemma StepExact(c: Cpu)
    requires Boundary(c)
    ensures Boundary(Commit(c)) && (Step(Commit(c)) == Step(c) <==> InvisibleStep(c))
  {
    hide Invisible, Perform;
    CommitRegs(c, PC);
    match ReadMem(c.pages, c.mem, c.regs[PC], 4)
    case LoadFault(e) => StepCommits(c);
    case Loaded(raw) =>
      var d := c.(pages := Touch(c.pages, c.regs[PC], false));
      EarlyCommitExact(d, Decode(raw));
      assert Commit(d) == Commit(c).(pages := d.pages);
  }

  /** Interrupts are transparent to a program none of whose instructions notices, wherever they fall. */
  lemma {:induction false} InterruptsExact(c: Cpu, n: nat, ints: set<nat>)
    requires Boundary(c)
    requires forall k :: 0 <= k < n ==> InvisibleStep(Run(c, k, {}))
    ensures Run(c, n, ints) == Run(c, n, {})
  {
    hide Step, Commit, InvisibleStep, Boundary;
    if n > 0 {
      InterruptsExact(c, n - 1, ints);
      StepExact(Run(c, n - 1, {}));
    }
  }

  /**
   In particular: an instruction that writes the register being loaded without reading it must write the loaded
   value.
   */
  lemma WriteHazard(c: Cpu, i: Instr)
    requires Boundary(c) && c.regs[LOAD_REG] in Writes(i) && c.regs[LOAD_REG] !in Reads(i) && c.regs[LOAD_REG] != 0
    requires Execute(c, i).Retire?
    ensures Boundary(Commit(c)) && |Execute(c, i).regs| == NUM_REGS
    ensures Perform(Commit(c), i) == Perform(c, i) <==> Execute(c, i).regs[c.regs[LOAD_REG]] == c.regs[LOAD_VALUE]
  {
    EarlyCommitExact(c, i);
    ExecuteWritesOperands(c, i);
    hide Perform, Commit, RegResult, ImmResult, HiLo, LoadEffect, StoreEffect, BitAnd, BitOr, BitXor;
    if i.op.AluR? {
      ShiftsIgnoreRs(i.op.r, c.regs[i.rs], Landing(c, i.rs), c.regs[i.rt], i.extra);
    } else if i.op.AluI? {
      LuiIgnoresRs(c.regs[i.rs], Landing(c, i.rs), i.extra);
    }
  }

  /** And one that reads it, to move it or to jump to it, must find the loaded value there already. */
  lemma ReadHazard(c: Cpu, i: Instr)
    requires Boundary(c) && i.rs == c.regs[LOAD_REG] != 0
    requires i.op in {Move(MTHI), Move(MTLO), Jump(JR)} || (i.op == Jump(JALR) && i.rd != i.rs)
    ensures Boundary(Commit(c)) && (Perform(Commit(c), i) == Perform(c, i) <==> c.regs[LOAD_VALUE] == c.regs[i.rs])
  {
    EarlyCommitExact(c, i);
    hide Perform, Commit;
  }

  /** The condition of `EarlyCommitInvisible` is a special case. */
  lemma UnhurriedIsInvisible(c: Cpu, i: Instr)
    requires Boundary(c) && Unhurried(c, i)
    ensures Invisible(c, i)
  {
    hide Perform, Commit, Invisible, Unhurried;
    EarlyCommitExact(c, i);
    EarlyCommitInvisible(c, i);
  }
}
