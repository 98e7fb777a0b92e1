/**
 * The simulator's instruction decoder (sim/riscv.cpp): for every instruction of RV32I it finds the
 * operation and the operands that the ISA defines.
 */
module RiscvDecoder {
  import opened RiscvIsa
  import opened WordBytes

  // ---- RiscVInstruction

  datatype Id = LUI | AUIPC | JAL | JALR | BR(c: Cond) | LD(w: Width,
      s: bool) | ST(w: Width) | OPI(op: Alu) | OPR(op: Alu) | NOOP | UNKNOWN
  datatype Format = FmtNone | FmtI | FmtS | FmtB | FmtU | FmtJ

  /** The attributes of an instruction; the operand fields are filled in whatever the format. */
  datatype Inst = Inst(id: Id, imm: Word, rs1: nat, rs2: nat, rd: nat, shamt: Word, npc: Word)

  /** get_imm. */
  function GetImm(fmt: Format, ir: Word): Word {
    match fmt
    case FmtI => SignBits(ir, 0xffff_f000) | MaskedI(ir)
    case FmtS => SignBits(ir, 0xffff_f000) | MaskedS(ir)
    case FmtB => SignBits(ir, 0xffff_f000) | MaskedB(ir)
    case FmtU => ir & 0xffff_f000
    case FmtJ => SignBits(ir, 0xfff0_0000) | MaskedJ(ir)
    case FmtNone => 0
  }

  /** The fields below the sign, shifted and masked. */
  function MaskedI(ir: Word): Word { (ir >> 20) & 0xfff }
  function MaskedS(ir: Word): Word { ((ir >> 20) & 0xfe0) | ((ir >> 7) & 0x1f) }
  function MaskedB(ir: Word): Word { ((ir << 4) & 0x800) | ((ir >> 20) & 0x7e0) | ((ir >> 7) & 0x1e) }
  function MaskedJ(ir: Word): Word { (ir & 0xf_f000) | ((ir >> 9) & 0x800) | ((ir >> 20) & 0x7fe) }

  function BranchId(f3: nat): Id {
    if f3 == 0 then BR(Eq) else if f3 == 1 then BR(Ne) else if f3 == 4 then BR(Lt) else if f3 == 5 then BR(Ge)
    else if f3 == 6 then BR(Ltu) else if f3 == 7 then BR(Geu) else UNKNOWN
  }

  function LoadId(f3: nat): Id {
    if f3 == 0 then LD(ByteWide, true) else if f3 == 1 then LD(HalfWide, true) else if f3 == 2 then LD(WordWide, false)
    else if f3 == 4 then LD(ByteWide, false) else if f3 == 5 then LD(HalfWide, false) else UNKNOWN
  }

  function StoreId(f3: nat): Id {
    if f3 == 0 then ST(ByteWide) else if f3 == 1 then ST(HalfWide) else if f3 == 2 then ST(WordWide) else UNKNOWN
  }

  /** Only one bit of funct7 is looked at, and only where two instructions share a funct3. */
  function ImmId(f3: nat, f7: nat): Id {
    if f3 == 0 then OPI(Add)
    else if f3 == 1 then OPI(Sll) else if f3 == 2 then OPI(Slt) else if f3 == 3 then OPI(Sltu)
    else if f3 == 4 then OPI(Xor)
    else if f3 == 5 then if f7 / 0x20 % 2 == 1 then OPI(Sra) else OPI(Srl)
    else if f3 == 6 then OPI(Or) else OPI(And)
  }

  function RegId(f3: nat, f7: nat): Id {
    if f3 == 0 then if f7 / 0x20 % 2 == 1 then OPR(Sub) else OPR(Add)
    else if f3 == 1 then OPR(Sll) else if f3 == 2 then OPR(Slt) else if f3 == 3 then OPR(Sltu) else if f3 == 4
      then OPR(Xor)
    else if f3 == 5 then if f7 / 0x20 % 2 == 1 then OPR(Sra) else OPR(Srl)
    else if f3 == 6 then OPR(Or) else OPR(And)
  }

  function SystemId(f3: nat, immI: nat): Id {
    if f3 == 0 then if immI == 0 || immI == 1 || immI == 0x302 || immI == 0x105 then NOOP else UNKNOWN
    else if f3 == 4 then UNKNOWN else NOOP
  }

  function IdOf(op: nat, f3: nat, f7: nat, immI: nat): Id {
    if op == 0x0d then LUI
    else if op == 0x05 then AUIPC
    else if op == 0x1b then JAL
    else if op == 0x19 then JALR
    else if op == 0x18 then BranchId(f3)
    else if op == 0x00 then LoadId(f3)
    else if op == 0x08 then StoreId(f3)
    else if op == 0x04 then ImmId(f3, f7)
    else if op == 0x0c then RegId(f3, f7)
    else if op == 0x03 then if f3 == 0 || f3 == 1 then NOOP else UNKNOWN
    else if op == 0x1c then SystemId(f3, immI)
    else UNKNOWN
  }

  function FormatOf(op: nat): Format {
    if op == 0x0d || op == 0x05 then FmtU
    else if op == 0x1b then FmtJ
    else if op == 0x19 || op == 0x00 || op == 0x04 then FmtI
    else if op == 0x18 then FmtB
    else if op == 0x08 then FmtS
    else FmtNone
  }

  /** The constructor. */
  function Instruction(pc: Word, ir: Word): (i: Inst)
    ensures i.rd < 32 && i.rs1 < 32 && i.rs2 < 32
  {
    if Num(ir & 3) != 3 then Inst(UNKNOWN, 0, 0, 0, 0, 0, 0)
    else
      var op := Num((ir >> 2) & 0x1f);
      var imm := GetImm(FormatOf(op), ir);
      Inst(IdOf(op, Num((ir >> 12) & 7), Num((ir >> 25) & 0x7f), Num((ir >> 20) & 0xfff)), imm,
           Reg(ir >> 15), Reg(ir >> 20), Reg(ir >> 7), (ir >> 20) & 0x1f, Plus(pc, imm))
  }

  // ---- decoding is the decoding of the ISA

  lemma FieldsAreMaskedI(ir: Word)
    ensures MaskedI(ir) == FieldsI(ir)
  {
  }

  lemma FieldsAreMaskedS(ir: Word)
    ensures MaskedS(ir) == FieldsS(ir)
  {
  }

  lemma FieldsAreMaskedB(ir: Word)
    ensures MaskedB(ir) == FieldsB(ir)
  {
  }

  lemma FieldsAreMaskedJ(ir: Word)
    ensures MaskedJ(ir) == FieldsJ(ir)
  {
  }

  lemma FieldsAreMaskedU(ir: Word)
    ensures ir & 0xffff_f000 == (ir >> 12) << 12
  {
  }

  function ImmOf(fmt: Format, i: Word): Word {
    match fmt
    case FmtI => ImmI(i)
    case FmtS => ImmS(i)
    case FmtB => ImmB(i)
    case FmtU => ImmU(i)
    case FmtJ => ImmJ(i)
    case FmtNone => 0
  }

  /** get_imm puts together the immediates of the ISA. */
  lemma ImmediatesAgree(fmt: Format, ir: Word)
    ensures GetImm(fmt, ir) == ImmOf(fmt, ir)
  {
    hide SignBits, MaskedI, MaskedS, MaskedB, MaskedJ, FieldsI, FieldsS, FieldsB, FieldsJ;
    match fmt {
      case FmtI => FieldsAreMaskedI(ir);
      case FmtS => FieldsAreMaskedS(ir);
      case FmtB => FieldsAreMaskedB(ir);
      case FmtU => FieldsAreMaskedU(ir);
      case FmtJ => FieldsAreMaskedJ(ir);
      case FmtNone =>
    }
  }

  /** Seven opcode bits are the two low bits and the five the decoder switches on. */
  lemma OpcodeSplits(ir: Word)
    ensures Num((ir >> 2) & 0x1f) == Num(ir & 0x7f) / 4 && (Num(ir & 3) == 3 <==> Num(ir & 0x7f) % 4 == 3)
  {
    var x := ir & 0x7f;
    Half(x);
    Half(x >> 1);
    HighBits(ir, x);
    LowBits(ir, x);
    Half(ir & 3);
    Half((ir & 3) >> 1);
  }

  lemma HighBits(ir: Word, x: Word)
    requires x == ir & 0x7f
    ensures (x >> 1) >> 1 == (ir >> 2) & 0x1f
  {
  }

  lemma LowBits(ir: Word, x: Word)
    requires x == ir & 0x7f
    ensures (ir & 3) & 1 == x & 1 && ((ir & 3) >> 1) & 1 == (x >> 1) & 1 && ((ir & 3) >> 1) >> 1 == 0
  {
  }

  lemma ThreeBits(x: Word)
    requires x < 8
    ensures Num(x) < 8
  {
    Half(x);
    Half(x >> 1);
    Half((x >> 1) >> 1);
    ThreeShifts(x);
  }

  lemma ThreeShifts(x: Word)
    requires x < 8
    ensures ((x >> 1) >> 1) >> 1 == 0
  {
  }

  /** A shift by a constant: the whole immediate is the shift amount when funct7 is zero. */
  lemma ShamtAgrees(ir: Word)
    requires ir >> 25 == 0
    ensures GetImm(FmtI, ir) == (ir >> 20) & 0x1f
  {
  }

  /** The decoded instruction is the one of the ISA. */
  predicate Means(inst: Inst, i: Instr, pc: Word) {
    match i
    case Lui(rd, imm) => inst.id == LUI && inst.rd == rd && inst.imm == imm
    case Auipc(rd, imm) => inst.id == AUIPC && inst.rd == rd && inst.npc == Plus(pc, imm)
    case Jal(rd, imm) => inst.id == JAL && inst.rd == rd && inst.npc == Plus(pc, imm)
    case Jalr(rd, rs1, imm) => inst.id == JALR && inst.rd == rd && inst.rs1 == rs1 && inst.imm == imm
    case Branch(c, rs1, rs2, imm) => inst.id == BR(c) && inst.rs1 == rs1 && inst.rs2 == rs2 && inst.npc == Plus(pc, imm)
    case Load(w, s, rd, rs1, imm) => inst.id == LD(w, s) && inst.rd == rd && inst.rs1 == rs1 && inst.imm == imm
    case Store(w, rs1, rs2, imm) => inst.id == ST(w) && inst.rs1 == rs1 && inst.rs2 == rs2 && inst.imm == imm
    case AluImm(op, rd, rs1, v) =>
      inst.id == OPI(op) && inst.rd == rd && inst.rs1 == rs1 &&
      (if op == Srl || op == Sra then inst.shamt else inst.imm) == v &&
      (op == Sll || op == Srl || op == Sra ==> v < 32) && op != Sub
    case AluReg(op, rd, rs1, rs2) => inst.id == OPR(op) && inst.rd == rd && inst.rs1 == rs1 && inst.rs2 == rs2
    case Fence => inst.id == NOOP
    case Environment => inst.id == NOOP
    case Illegal => true
  }

  /** A funct7 of zero is a zero field. */
  lemma {:induction false} ZeroNum(x: Word)
    requires Num(x) == 0
    ensures x == 0
    decreases x
  {
    if x != 0 {
      Halved(x);
      ZeroNum(x >> 1);
      OneOrZero(x);
    }
  }

  lemma OneOrZero(x: Word)
    requires x >> 1 == 0 && x & 1 != 1
    ensures x == 0
  {
  }

  lemma SevenBits(ir: Word)
    ensures (ir >> 25) & 0x7f == ir >> 25
  {
  }

  lemma Shamt(ir: Word)
    ensures (ir >> 20) & 0x1f < 32 && (ir >> 12) & 7 < 8
  {
  }

  /** ECALL and EBREAK. */
  lemma SystemWords(ir: Word)
    requires ir == 0x73 || ir == 0x0010_0073
    ensures ir & 0x7f == 0x73 && (ir >> 12) & 7 == 0 && ((ir >> 20) & 0xfff == 0 || (ir >> 20) & 0xfff == 1)
  {
  }

  lemma Constants()
    ensures Num(0x73) == 0x73 && Num(1) == 1 && Num(0) == 0
  {
    Half(0x73);
    Half(0x39);
    Half(0x1c);
    Half(0x0e);
    Half(0x07);
    Half(0x03);
    Half(0x01);
    assert 0x73 >> 1 == 0x39 as Word && (0x39 as Word) >> 1 == 0x1c && (0x1c as Word) >> 1 == 0x0e &&
           (0x0e as Word) >> 1 == 7;
  }

  lemma DecodeAgrees(pc: Word, ir: Word)
    ensures Means(Instruction(pc, ir), Decode(ir), pc)
  {
    hide GetImm, ImmI, ImmS, ImmB, ImmU, ImmJ, Reg, Num, DecodeFields, IdOf, Means, Plus;
    var opcode, f3, f7, immI := Num(ir & 0x7f), Num((ir >> 12) & 7), Num((ir >> 25) & 0x7f), Num((ir >> 20) & 0xfff);
    OpcodeSplits(ir);
    Shamt(ir);
    ThreeBits((ir >> 12) & 7);
    if f7 == 0 {
      ZeroNum((ir >> 25) & 0x7f);
      SevenBits(ir);
      ShamtAgrees(ir);
    }
    if ir == 0x73 || ir == 0x0010_0073 {
      SystemWords(ir);
      Constants();
    }
    ByOpcode(pc, ir, opcode, f3, f7, immI, Reg(ir >> 15), Reg(ir >> 20), Reg(ir >> 7), (ir >> 20) & 0x1f,
        ir == 0x0000_0073 || ir == 0x0010_0073);
    if opcode % 4 != 3 { NothingMeant(Instruction(pc, ir), pc); }
  }

  lemma NothingMeant(inst: Inst, pc: Word)
    ensures Means(inst, Illegal, pc)
  {
  }

  /** The decoder's answer for given fields. */
  function Chosen(opcode: nat, f3: nat, f7: nat, immI: nat, rs1: nat, rs2: nat, rd: nat, shamt: Word, pc: Word,
      ir: Word): Inst {
    var imm := GetImm(FormatOf(opcode / 4), ir);
    Inst(IdOf(opcode / 4, f3, f7, immI), imm, rs1, rs2, rd, shamt, Plus(pc, imm))
  }

  /** Opcode by opcode, in terms of the fields alone. */
  lemma ByOpcode(pc: Word, ir: Word, opcode: nat, f3: nat, f7: nat, immI: nat, rs1: nat, rs2: nat, rd: nat,
      shamt: Word, call: bool)
    requires f3 < 8 && shamt < 32 && (f7 == 0 ==> GetImm(FmtI, ir) == shamt) &&
             (call ==> opcode == 0x73 && f3 == 0 && (immI == 0 || immI == 1))
    ensures opcode % 4 == 3 ==>
              Means(Chosen(opcode, f3, f7, immI, rs1, rs2, rd, shamt, pc, ir),
                DecodeFields(opcode, f3, f7, rd, rs1, rs2, shamt, call, ir), pc)
    ensures opcode % 4 != 3 ==> DecodeFields(opcode, f3, f7, rd, rs1, rs2, shamt, call, ir) == Illegal
  {
    hide GetImm, IdOf, FormatOf, Means, DecodeFields, Chosen, Plus;
    if opcode % 4 != 3 {
      NoOpcode(pc, ir, opcode, f3, f7, immI, rs1, rs2, rd, shamt, call);
    } else if opcode == 0x37 || opcode == 0x17 || opcode == 0x6f || opcode == 0x67 {
      JumpsAt(pc, ir, opcode, f3, f7, immI, rs1, rs2, rd, shamt, call);
    } else if opcode == 0x63 || opcode == 0x03 || opcode == 0x23 {
      MemoryAt(pc, ir, opcode, f3, f7, immI, rs1, rs2, rd, shamt, call);
    } else if opcode == 0x13 || opcode == 0x33 {
      ArithmeticAt(pc, ir, opcode, f3, f7, immI, rs1, rs2, rd, shamt, call);
    } else {
      OthersAt(pc, ir, opcode, f3, f7, immI, rs1, rs2, rd, shamt, call);
    }
  }

  lemma NoOpcode(pc: Word, ir: Word, opcode: nat, f3: nat, f7: nat, immI: nat, rs1: nat, rs2: nat, rd: nat,
      shamt: Word, call: bool)
    requires f3 < 8 && shamt < 32 && (f7 == 0 ==> GetImm(FmtI, ir) == shamt) &&
             (call ==> opcode == 0x73 && f3 == 0 && (immI == 0 || immI == 1))
    requires opcode % 4 != 3
    ensures DecodeFields(opcode, f3, f7, rd, rs1, rs2, shamt, call, ir) == Illegal
  {
    hide GetImm, ImmI, ImmS, ImmB, ImmU, ImmJ, BranchCond, BranchId, LoadId, StoreId, DecodeLoad, DecodeStore,
         DecodeImm, DecodeReg, ImmId, RegId, Plus;
  }

  lemma JumpsAt(pc: Word, ir: Word, opcode: nat, f3: nat, f7: nat, immI: nat, rs1: nat, rs2: nat, rd: nat,
      shamt: Word, call: bool)
    requires f3 < 8 && shamt < 32 && (f7 == 0 ==> GetImm(FmtI, ir) == shamt) &&
             (call ==> opcode == 0x73 && f3 == 0 && (immI == 0 || immI == 1))
    requires opcode == 0x37 || opcode == 0x17 || opcode == 0x6f || opcode == 0x67
    ensures Means(Chosen(opcode, f3, f7, immI, rs1, rs2, rd, shamt, pc, ir),
              DecodeFields(opcode, f3, f7, rd, rs1, rs2, shamt, call, ir), pc)
  {
    hide GetImm, ImmI, ImmS, ImmB, ImmU, ImmJ, BranchCond, BranchId, LoadId, StoreId, DecodeLoad, DecodeStore,
         DecodeImm, DecodeReg, ImmId, RegId, Plus;
    ImmediatesAgree(FormatOf(opcode / 4), ir);
  }

  lemma MemoryAt(pc: Word, ir: Word, opcode: nat, f3: nat, f7: nat, immI: nat, rs1: nat, rs2: nat, rd: nat,
      shamt: Word, call: bool)
    requires f3 < 8 && shamt < 32 && (f7 == 0 ==> GetImm(FmtI, ir) == shamt) &&
             (call ==> opcode == 0x73 && f3 == 0 && (immI == 0 || immI == 1))
    requires opcode == 0x63 || opcode == 0x03 || opcode == 0x23
    ensures Means(Chosen(opcode, f3, f7, immI, rs1, rs2, rd, shamt, pc, ir),
              DecodeFields(opcode, f3, f7, rd, rs1, rs2, shamt, call, ir), pc)
  {
    hide GetImm, ImmI, ImmS, ImmB, ImmU, ImmJ, BranchCond, BranchId, LoadId, StoreId, DecodeLoad, DecodeStore,
         DecodeImm, DecodeReg, ImmId, RegId, Plus;
    ImmediatesAgree(FormatOf(opcode / 4), ir);
    if opcode == 0x63 { BranchesAgree(f3); }
      else { MemoryAgrees(f3, rd, rs1, rs2, ImmOf(FormatOf(opcode / 4), ir), shamt, pc); }
  }

  lemma ArithmeticAt(pc: Word, ir: Word, opcode: nat, f3: nat, f7: nat, immI: nat, rs1: nat, rs2: nat, rd: nat,
      shamt: Word, call: bool)
    requires f3 < 8 && shamt < 32 && (f7 == 0 ==> GetImm(FmtI, ir) == shamt) &&
             (call ==> opcode == 0x73 && f3 == 0 && (immI == 0 || immI == 1))
    requires opcode == 0x13 || opcode == 0x33
    ensures Means(Chosen(opcode, f3, f7, immI, rs1, rs2, rd, shamt, pc, ir),
              DecodeFields(opcode, f3, f7, rd, rs1, rs2, shamt, call, ir), pc)
  {
    hide GetImm, ImmI, ImmS, ImmB, ImmU, ImmJ, BranchCond, BranchId, LoadId, StoreId, DecodeLoad, DecodeStore,
         DecodeImm, DecodeReg, ImmId, RegId, Plus;
    ImmediatesAgree(FormatOf(opcode / 4), ir);
    if opcode == 0x13 { ImmediateAgrees(f3, f7, rd, rs1, rs2, ImmI(ir), shamt, pc); }
      else { RegisterAgrees(f3, f7, rd, rs1, rs2, GetImm(FmtNone, ir), shamt, pc); }
  }

  lemma OthersAt(pc: Word, ir: Word, opcode: nat, f3: nat, f7: nat, immI: nat, rs1: nat, rs2: nat, rd: nat,
      shamt: Word, call: bool)
    requires f3 < 8 && shamt < 32 && (f7 == 0 ==> GetImm(FmtI, ir) == shamt) &&
             (call ==> opcode == 0x73 && f3 == 0 && (immI == 0 || immI == 1))
    requires opcode % 4 == 3 && opcode !in {0x37, 0x17, 0x6f, 0x67, 0x63, 0x03, 0x23, 0x13, 0x33}
    ensures Means(Chosen(opcode, f3, f7, immI, rs1, rs2, rd, shamt, pc, ir),
              DecodeFields(opcode, f3, f7, rd, rs1, rs2, shamt, call, ir), pc)
  {
    hide GetImm, ImmI, ImmS, ImmB, ImmU, ImmJ, BranchCond, BranchId, LoadId, StoreId, DecodeLoad, DecodeStore,
         DecodeImm, DecodeReg, ImmId, RegId, Plus;
  }

  lemma BranchesAgree(f3: nat)
    requires f3 < 8
    ensures f3 != 2 && f3 != 3 ==> BranchId(f3) == BR(BranchCond(f3))
  {
  }

  lemma MemoryAgrees(f3: nat, rd: nat, rs1: nat, rs2: nat, imm: Word, shamt: Word, pc: Word)
    ensures Means(Inst(LoadId(f3), imm, rs1, rs2, rd, shamt, Plus(pc, imm)), DecodeLoad(f3, rd, rs1, imm), pc)
    ensures Means(Inst(StoreId(f3), imm, rs1, rs2, rd, shamt, Plus(pc, imm)), DecodeStore(f3, rs1, rs2, imm), pc)
  {
    hide Plus;
  }

  lemma ImmediateAgrees(f3: nat, f7: nat, rd: nat, rs1: nat, rs2: nat, imm: Word, shamt: Word, pc: Word)
    requires f3 < 8 && shamt < 32 && (f7 == 0 ==> imm == shamt)
    ensures Means(Inst(ImmId(f3, f7), imm, rs1, rs2, rd, shamt, Plus(pc, imm)),
              DecodeImm(f3, f7, rd, rs1, imm, shamt), pc)
  {
    hide Plus;
  }

  lemma RegisterAgrees(f3: nat, f7: nat, rd: nat, rs1: nat, rs2: nat, imm: Word, shamt: Word, pc: Word)
    requires f3 < 8
    ensures Means(Inst(RegId(f3, f7), imm, rs1, rs2, rd, shamt, Plus(pc, imm)), DecodeReg(f3, f7, rd, rs1, rs2), pc)
  {
    hide Plus;
  }

  // ---- numbers of words

  lemma {:induction false} NumInjective(x: Word, y: Word)
    requires Num(x) == Num(y)
    ensures x == y
    decreases Num(x)
  {
    hide Num, Halve, Odd;
    if x == 0 {
      ZeroNum(y);
    } else if y == 0 {
      ZeroNum(x);
    } else {
      if Num(x) == 0 { ZeroNum(x); }
      NumInjective(Halve(x), Halve(y)) by {
        HalfNum(x);
        HalfNum(y);
      }
      HalfNum(x);
      HalfNum(y);
      LastBit(x, y);
    }
  }

  function Halve(x: Word): Word { x >> 1 }
  predicate Odd(x: Word) { x & 1 == 1 }

  lemma HalfNum(x: Word)
    ensures Num(Halve(x)) == Num(x) / 2 && (Num(x) % 2 == 1 <==> Odd(x))
  {
    hide Num;
    Half(x);
  }

  lemma LastBit(x: Word, y: Word)
    requires Halve(x) == Halve(y) && (Odd(x) <==> Odd(y))
    ensures x == y
  {
  }

  lemma StoreConstants()
    ensures Num(0) == 0 && Num(1) == 1 && Num(2) == 2 && Num(3) == 3 && Num(8) == 8
  {
    Half(1);
    Half(2);
    Half(3);
    Half(8);
    Half(4);
    assert (1 as Word) >> 1 == 0 && (2 as Word) >> 1 == 1 && (3 as Word) >> 1 == 1 && (8 as Word) >> 1 == 4 &&
           (4 as Word) >> 1 == 2;
  }

  /** The decoded instruction is a store exactly if these fields say so. */
  lemma StoresAre(op: nat, f3: nat, f7: nat, immI: nat)
    ensures IdOf(op, f3, f7, immI).ST? <==> op == 8 && f3 < 3
  {
  }

  predicate StoreWord(ir: Word) {
    ir & 3 == 3 && (ir >> 2) & 0x1f == 8 && ((ir >> 12) & 7 == 0 || (ir >> 12) & 7 == 1 || (ir >> 12) & 7 == 2)
  }

  lemma StoresExactly(pc: Word, ir: Word)
    ensures Instruction(pc, ir).id.ST? <==> StoreWord(ir)
  {
    hide Num, GetImm, Reg, Plus, IdOf;
    var low, op, f3 := ir & 3, (ir >> 2) & 0x1f, (ir >> 12) & 7;
    StoresAre(Num(op), Num(f3), Num((ir >> 25) & 0x7f), Num((ir >> 20) & 0xfff));
    FieldsNamed(low, op, f3);
  }

  lemma FieldsNamed(low: Word, op: Word, f3: Word)
    ensures (Num(low) == 3 <==> low == 3) && (Num(op) == 8 <==> op == 8) &&
            (Num(f3) < 3 <==> f3 == 0 || f3 == 1 || f3 == 2)
  {
    hide Num;
    StoreConstants();
    if Num(low) == 3 { NumInjective(low, 3); }
    if Num(op) == 8 { NumInjective(op, 8); }
    if Num(f3) == 0 { NumInjective(f3, 0); }
    if Num(f3) == 1 { NumInjective(f3, 1); }
    if Num(f3) == 2 { NumInjective(f3, 2); }
  }

  // ---- words that are not instructions of RV32I

  /** Encodings outside RV32I that the core executes all the same: JALR with any funct3, shifts and
      register arithmetic with any funct7 (so that multiplications add), FENCE.I, MRET and WFI,
      environment calls with operands, and accesses to control registers. */
  predicate ExecutedAllTheSame(opcode: nat, f3: nat, f7: nat, immI: nat, call: bool) {
    if opcode == 0x67 then f3 != 0
    else if opcode == 0x13 then (f3 == 1 && f7 != 0) || (f3 == 5 && f7 != 0 && f7 != 0x20)
    else if opcode == 0x33 then f7 != 0 && !(f7 == 0x20 && (f3 == 0 || f3 == 5))
    else if opcode == 0x0f then f3 == 1
    else
      opcode == 0x73 && !call && if f3 == 0 then immI == 0 || immI == 1 || immI == 0x302 || immI == 0x105 else f3 != 4
  }

  lemma UnknownFields(opcode: nat, f3: nat, f7: nat, rd: nat, rs1: nat, rs2: nat, immI: nat, shamt: Word, call: bool,
      ir: Word)
    requires f3 < 8 && (call ==> opcode == 0x73 && f3 == 0 && (immI == 0 || immI == 1))
    ensures var unknown := opcode % 4 != 3 || IdOf(opcode / 4, f3, f7, immI).UNKNOWN?;
            opcode < 128 ==> (unknown <==> DecodeFields(opcode, f3, f7, rd, rs1, rs2, shamt, call, ir).Illegal? &&
                                           !ExecutedAllTheSame(opcode, f3, f7, immI, call))
  {
    hide ImmI, ImmS, ImmB, ImmU, ImmJ, BranchCond;
  }

  lemma OpcodeBound(ir: Word)
    ensures Num(ir & 0x7f) < 128
  {
    hide Num;
    var x := ir & 0x7f;
    OpcodeSplits(ir);
    FiveBits((ir >> 2) & 0x1f);
  }

  /** The core rejects a word exactly if it is not of RV32I, and not among those. */
  lemma UnknownExactly(pc: Word, ir: Word)
    ensures Instruction(pc, ir).id.UNKNOWN? <==>
            Decode(ir).Illegal? && !ExecutedAllTheSame(Num(ir & 0x7f), Num((ir >> 12) & 7), Num((ir >> 25) & 0x7f),
                Num((ir >> 20) & 0xfff),
                                                       ir == 0x0000_0073 || ir == 0x0010_0073)
  {
    hide GetImm, Reg, Num, DecodeFields, IdOf, Plus, ExecutedAllTheSame;
    OpcodeSplits(ir);
    OpcodeBound(ir);
    Shamt(ir);
    ThreeBits((ir >> 12) & 7);
    if ir == 0x73 || ir == 0x0010_0073 {
      SystemWords(ir);
      Constants();
    }
    UnknownFields(Num(ir & 0x7f), Num((ir >> 12) & 7), Num((ir >> 25) & 0x7f), Reg(ir >> 7), Reg(ir >> 15),
        Reg(ir >> 20), Num((ir >> 20) & 0xfff),
                  (ir >> 20) & 0x1f, ir == 0x0000_0073 || ir == 0x0010_0073, ir);
  }

  /** MUL x0, x0, x0 decodes as an addition. */
  lemma MultiplicationAdds(pc: Word)
    ensures Instruction(pc, 0x0200_0033).id == OPR(Add) && Decode(0x0200_0033).Illegal?
  {
    hide GetImm, Reg, Num, Plus;
    MulFields();
    MulNumbers();
    OpcodeSplits(0x0200_0033);
  }

  lemma MulFields()
    ensures (0x0200_0033 as Word) & 0x7f == 0x33 && ((0x0200_0033 as Word) >> 12) & 7 == 0 &&
            ((0x0200_0033 as Word) >> 25) & 0x7f == 1
  {
  }

  lemma MulNumbers()
    ensures Num(0x33) == 0x33 && Num(1) == 1 && Num(0) == 0
  {
    hide Num;
    Half(0x33);
    Half(0x19);
    Half(0x0c);
    Half(0x06);
    Half(0x03);
    StoreConstants();
    assert 0x33 >> 1 == 0x19 as Word && (0x19 as Word) >> 1 == 0x0c && (0x0c as Word) >> 1 == 0x06 &&
           (0x06 as Word) >> 1 == 3;
  }
}
