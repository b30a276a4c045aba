/** Instruction decoding (`Instruction::Decode` and its two tables in machine/mipssim.h). */
module Decoding {
  import opened Words
  import opened Isa

  datatype Kind = Plain(op: Op) | Special | Bcond

  datatype Format = IFMT | JFMT | RFMT

  /** `opTable`, indexed by bits 31..26. */
  function OpTable(n: int): (Kind, Format)
    requires 0 <= n < 64
  {
    match n
    case 0 => (Special, RFMT) case 1 => (Bcond, IFMT)
    case 2 => (Plain(Jump(J)), JFMT) case 3 => (Plain(Jump(JAL)), JFMT)
    case 4 => (Plain(Branch(BEQ)), IFMT) case 5 => (Plain(Branch(BNE)), IFMT)
    case 6 => (Plain(Branch(BLEZ)), IFMT) case 7 => (Plain(Branch(BGTZ)), IFMT)
    case 8 => (Plain(AluI(ADDI)), IFMT) case 9 => (Plain(AluI(ADDIU)), IFMT)
    case 10 => (Plain(AluI(SLTI)), IFMT) case 11 => (Plain(AluI(SLTIU)), IFMT)
    case 12 => (Plain(AluI(ANDI)), IFMT) case 13 => (Plain(AluI(ORI)), IFMT)
    case 14 => (Plain(AluI(XORI)), IFMT) case 15 => (Plain(AluI(LUI)), IFMT)
    case 16 => (Plain(UNIMP), IFMT) case 17 => (Plain(UNIMP), IFMT)
    case 18 => (Plain(UNIMP), IFMT) case 19 => (Plain(UNIMP), IFMT)
    case 32 => (Plain(Load(LB)), IFMT) case 33 => (Plain(Load(LH)), IFMT)
    case 34 => (Plain(Load(LWL)), IFMT) case 35 => (Plain(Load(LW)), IFMT)
    case 36 => (Plain(Load(LBU)), IFMT) case 37 => (Plain(Load(LHU)), IFMT)
    case 38 => (Plain(Load(LWR)), IFMT)
    case 40 => (Plain(Store(SB)), IFMT) case 41 => (Plain(Store(SH)), IFMT)
    case 42 => (Plain(Store(SWL)), IFMT) case 43 => (Plain(Store(SW)), IFMT)
    case 46 => (Plain(Store(SWR)), IFMT)
    case 48 => (Plain(UNIMP), IFMT) case 49 => (Plain(UNIMP), IFMT)
    case 50 => (Plain(UNIMP), IFMT) case 51 => (Plain(UNIMP), IFMT)
    case 56 => (Plain(UNIMP), IFMT) case 57 => (Plain(UNIMP), IFMT)
    case 58 => (Plain(UNIMP), IFMT) case 59 => (Plain(UNIMP), IFMT)
    case _ => (Plain(RES), IFMT)
  }

  /** `specialTable`, indexed by bits 5..0. */
  function SpecialTable(n: int): Op
    requires 0 <= n < 64
  {
    match n
    case 0 => AluR(SLL) case 2 => AluR(SRL) case 3 => AluR(SRA) case 4 => AluR(SLLV) case 6 => AluR(SRLV)
    case 7 => AluR(SRAV)
    case 8 => Jump(JR) case 9 => Jump(JALR) case 12 => SYSCALL case 13 => UNIMP
    case 16 => Move(MFHI) case 17 => Move(MTHI) case 18 => Move(MFLO) case 19 => Move(MTLO)
    case 24 => MulDiv(MULT) case 25 => MulDiv(MULTU) case 26 => MulDiv(DIV) case 27 => MulDiv(DIVU)
    case 32 => AluR(ADD) case 33 => AluR(ADDU) case 34 => AluR(SUB) case 35 => AluR(SUBU)
    case 36 => AluR(AND) case 37 => AluR(OR) case 38 => AluR(XOR) case 39 => AluR(NOR)
    case 42 => AluR(SLT) case 43 => AluR(SLTU)
    case _ => RES
  }

  function BcondOp(rtField: int): Op {
    if rtField == 0 then Branch(BLTZ)
    else if rtField == 1 then Branch(BGEZ)
    else if rtField == 16 then Branch(BLTZAL)
    else if rtField == 17 then Branch(BGEZAL)
    else UNIMP
  }

  function Decode(value: Word): Instr {
    var rs, rt, rd := value / 0x20_0000 % 32, value / 0x1_0000 % 32, value / 0x800 % 32;
    var (kind, format) := OpTable(value / 0x400_0000 % 64);
    var extra :=
      if format.IFMT? then
        (if value % 0x1_0000 >= 0x8000 then value % 0x1_0000 + 0xffff_0000 else value % 0x1_0000)
      else if format.RFMT? then value / 0x40 % 32
      else value % 0x400_0000;
    var op := match kind
      case Plain(op) => op
      case Special => SpecialTable(value % 64)
      case Bcond => BcondOp(rt);
    Instr(op, rs, rt, rd, extra)
  }

  // ---- the architecture's own assignment of encodings ----

  datatype Encoding = Primary(opcode: int) | Funct(funct: int) | RegImm(rt: int) | Undefined

  /** The MIPS I encoding of each operation. */
  function EncodingOf(op: Op): Encoding {
    match op
    case AluR(f) => Funct(match f
      case ADD => 32 case ADDU => 33 case AND => 36 case NOR => 39 case OR => 37 case SLL => 0 case SLLV => 4
      case SLT => 42 case SLTU => 43 case SRA => 3 case SRAV => 7 case SRL => 2 case SRLV => 6
      case SUB => 34 case SUBU => 35 case XOR => 38)
    case AluI(f) => Primary(match f
      case ADDI => 8 case ADDIU => 9 case ANDI => 12 case LUI => 15 case ORI => 13
      case SLTI => 10 case SLTIU => 11 case XORI => 14)
    case Branch(f) => (match f
      case BEQ => Primary(4) case BNE => Primary(5) case BGTZ => Primary(7) case BLEZ => Primary(6)
      case BGEZ => RegImm(1) case BGEZAL => RegImm(17) case BLTZ => RegImm(0) case BLTZAL => RegImm(16))
    case Jump(f) => (match f
      case J => Primary(2) case JAL => Primary(3) case JR => Funct(8) case JALR => Funct(9))
    case MulDiv(f) => Funct(match f case DIV => 26 case DIVU => 27 case MULT => 24 case MULTU => 25)
    case Move(f) => Funct(match f case MFHI => 16 case MFLO => 18 case MTHI => 17 case MTLO => 19)
    case Load(f) => Primary(match f
      case LB => 32 case LBU => 36 case LH => 33 case LHU => 37 case LW => 35 case LWL => 34 case LWR => 38)
    case Store(f) => Primary(match f case SB => 40 case SH => 41 case SW => 43 case SWL => 42 case SWR => 46)
    case SYSCALL => Funct(12)
    case UNIMP => Undefined
    case RES => Undefined
  }

  /** The word with the six R-format fields. */
  function Pack(opcode: int, rs: int, rt: int, rd: int, shamt: int, funct: int): int {
    opcode * 0x400_0000 + rs * 0x20_0000 + rt * 0x1_0000 + rd * 0x800 + shamt * 0x40 + funct
  }

  predicate HasEncoding(value: Word, e: Encoding) {
    match e
    case Primary(n) => value / 0x400_0000 == n
    case Funct(n) => value / 0x400_0000 == 0 && value % 64 == n
    case RegImm(n) => value / 0x400_0000 == 1 && value / 0x1_0000 % 32 == n
    case Undefined => false
  }

  /** The tables assign an operation to exactly the words the architecture encodes it by. */
  lemma DecodesExactly(value: Word, op: Op)
    requires !op.UNIMP? && !op.RES?
    ensures Decode(value).op == op <==> HasEncoding(value, EncodingOf(op))
  {
    var n := value / 0x400_0000;
    assert n % 64 == n;
    PrimaryExact(n, op);
    SpecialExact(value % 64, op);
    BcondExact(value / 0x1_0000 % 32, op);
  }

  lemma PrimaryExact(n: int, op: Op)
    requires 0 <= n < 64 && !op.UNIMP? && !op.RES?
    ensures OpTable(n).0 == Plain(op) <==> EncodingOf(op) == Primary(n)
    ensures OpTable(n).0 == Special <==> n == 0
    ensures OpTable(n).0 == Bcond <==> n == 1
  {
  }

  lemma SpecialExact(n: int, op: Op)
    requires 0 <= n < 64 && !op.UNIMP? && !op.RES?
    ensures SpecialTable(n) == op <==> EncodingOf(op) == Funct(n)
  {
  }

  lemma BcondExact(n: int, op: Op)
    requires 0 <= n < 32 && !op.UNIMP? && !op.RES?
    ensures BcondOp(n) == op <==> EncodingOf(op) == RegImm(n)
  {
  }

  /** Immediates are sign-extended 16-bit fields, shift amounts 5-bit fields, jump targets 26-bit fields. */
  lemma DecodesOperands(opcode: int, rs: Reg, rt: Reg, rd: Reg, shamt: int, funct: int)
    requires 0 <= opcode < 64 && 0 <= shamt < 32 && 0 <= funct < 64
    ensures var v := Pack(opcode, rs, rt, rd, shamt, funct);
            0 <= v < TWO32 &&
            var i := Decode(v);
            i.rs == rs && i.rt == rt && i.rd == rd &&
            (opcode == 0 ==> i.extra == shamt) &&
            (opcode == 2 || opcode == 3 ==> i.extra == v - opcode * 0x400_0000) &&
            (opcode == 1 || opcode > 3 ==>
               var imm := rd * 0x800 + shamt * 0x40 + funct;
               Signed(i.extra) == if imm < 0x8000 then imm else imm - 0x1_0000)
  {
    PackFields(opcode, rs, rt, rd, shamt, funct);
    FormatOf(opcode);
  }

  lemma PackFields(opcode: int, rs: int, rt: int, rd: int, shamt: int, funct: int)
    requires 0 <= opcode < 64 && 0 <= rs < 32 && 0 <= rt < 32 && 0 <= rd < 32 && 0 <= shamt < 32 && 0 <= funct < 64
    ensures var v := Pack(opcode, rs, rt, rd, shamt, funct);
            0 <= v < TWO32 && v / 0x400_0000 % 64 == opcode && v / 0x20_0000 % 32 == rs &&
            v / 0x1_0000 % 32 == rt && v / 0x800 % 32 == rd && v / 0x40 % 32 == shamt &&
            v % 0x1_0000 == rd * 0x800 + shamt * 0x40 + funct && v % 0x400_0000 == v - opcode * 0x400_0000
  {
    var v := Pack(opcode, rs, rt, rd, shamt, funct);
    assert v / 0x400_0000 == opcode;
    assert v / 0x1_0000 == opcode * 0x400 + rs * 0x20 + rt;
    assert v / 0x20_0000 == opcode * 0x20 + rs;
    assert v / 0x800 == opcode * 0x8000 + rs * 0x400 + rt * 0x20 + rd;
    assert v / 0x40 == opcode * 0x10_0000 + rs * 0x8000 + rt * 0x400 + rd * 0x20 + shamt;
  }

  lemma FormatOf(n: int)
    requires 0 <= n < 64
    ensures OpTable(n).1 == if n == 0 then RFMT else if n == 2 || n == 3 then JFMT else IFMT
  {
  }
}
