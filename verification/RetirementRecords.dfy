/**
 * What a retirement record tells of an instruction of RV32I, and that the validator's classes
 * (sim/riscv.cpp, sim/sim_concurrent.cpp) are those of the instructions.
 */
module RetirementRecords {
  import opened ByteMemory
  import opened RiscvIsa
  import opened WordBytes
  import CoreMemory
  import Lockstep
  import RiscvDecoder

  // ---- classes of instructions

  /** The class of an instruction of the ISA. */
  function KindOf(i: Instr): Lockstep.Class {
    match i
    case Load(_, _, _, _, _) => Lockstep.Class.Load
    case Store(_, _, _, _) => Lockstep.Class.Store
    case Branch(_, _, _, _) => Lockstep.Other
    case Fence => Lockstep.Other
    case Environment => Lockstep.Other
    case Illegal => Lockstep.Other
    case _ => Lockstep.Register
  }

  /** The opcodes of RV32I as words. */
  function OpcodeWord(n: nat): Word {
    if n == 0x37 then 0x37 else if n == 0x17 then 0x17 else if n == 0x6f then 0x6f else if n == 0x67 then 0x67
    else if n == 0x63 then 0x63 else if n == 0x03 then 0x03 else if n == 0x23 then 0x23 else if n == 0x13 then 0x13
    else if n == 0x33 then 0x33 else 0x0f
  }

  predicate RvOpcode(n: nat) {
    n in {0x37, 0x17, 0x6f, 0x67, 0x63, 0x03, 0x23, 0x13, 0x33, 0x0f}
  }

  lemma SmallNums()
    ensures Num(0) == 0 && Num(1) == 1 && Num(2) == 2 && Num(3) == 3 && Num(4) == 4 && Num(5) == 5 && Num(6) == 6 &&
            Num(7) == 7
  {
    NumFrom(0, 1);
    NumFrom(1, 2);
    NumFrom(1, 3);
    NumFrom(2, 4);
    NumFrom(2, 5);
    NumFrom(3, 6);
    NumFrom(3, 7);
  }

  /** A number from its half. */
  lemma NumFrom(h: Word, x: Word)
    requires x >> 1 == h
    ensures Num(x) == 2 * Num(h) + if x & 1 == 1 then 1 else 0
  {
    Half(x);
  }

  lemma OpcodeNum(n: nat)
    requires RvOpcode(n)
    ensures Num(OpcodeWord(n)) == n
  {
    hide Num;
    SmallNums();
    NumFrom(6, 0x0c);
    NumFrom(6, 0x0d);
    NumFrom(0x0c, 0x18);
    NumFrom(0x0c, 0x19);
    NumFrom(0x0d, 0x1b);
    NumFrom(0x1b, 0x37);
    NumFrom(5, 0x0b);
    NumFrom(0x0b, 0x17);
    NumFrom(0x37, 0x6f);
    NumFrom(0x19, 0x33);
    NumFrom(0x33, 0x67);
    NumFrom(0x18, 0x31);
    NumFrom(0x31, 0x63);
    NumFrom(4, 8);
    NumFrom(4, 9);
    NumFrom(8, 0x11);
    NumFrom(0x11, 0x23);
    NumFrom(9, 0x13);
    NumFrom(7, 0x0f);
  }

  /** What the opcode says of the class. */
  function KindByOpcode(opcode: nat): Lockstep.Class {
    if opcode == 0x03 then Lockstep.Class.Load
    else if opcode == 0x23 then Lockstep.Class.Store
    else if opcode in {0x37, 0x17, 0x6f, 0x67, 0x13, 0x33} then Lockstep.Register
    else Lockstep.Other
  }

  lemma KindOfFields(opcode: nat, f3: nat, f7: nat, rd: nat, rs1: nat, rs2: nat, shamt: Word, call: bool, i: Word)
    requires DecodeFields(opcode, f3, f7, rd, rs1, rs2, shamt, call, i) != Illegal && (call ==> opcode == 0x73)
    ensures KindOf(DecodeFields(opcode, f3, f7, rd, rs1, rs2, shamt, call, i)) == KindByOpcode(opcode)
    ensures RvOpcode(opcode) || call
    ensures opcode == 0x03 ==> f3 in {0, 1, 2, 4, 5}
    ensures opcode == 0x23 ==> f3 in {0, 1, 2}
  {
    hide ImmI, ImmS, ImmB, ImmU, ImmJ, BranchCond;
  }

  /** The class of a word from its opcode and funct3. */
  lemma ClassByOpcode(ir: Word, n: nat)
    requires RvOpcode(n) && ir & 0x7f == OpcodeWord(n)
    requires n == 0x03 ==> FunctIn(ir, true)
    requires n == 0x23 ==> FunctIn(ir, false)
    ensures Lockstep.ClassOf(ir) == KindByOpcode(n)
  {
    OpcodeParts(ir);
  }

  predicate FunctIn(ir: Word, load: bool) {
    var f3 := (ir >> 12) & 7;
    f3 == 0 || f3 == 1 || f3 == 2 || (load && (f3 == 4 || f3 == 5))
  }

  lemma OpcodeParts(ir: Word)
    ensures (ir >> 2) & 0x1f == (ir & 0x7f) >> 2 && ir & 3 == (ir & 0x7f) & 3
  {
  }

  lemma FunctWord(f3: Word)
    ensures Num(f3) == 0 ==> f3 == 0
    ensures Num(f3) == 1 ==> f3 == 1
    ensures Num(f3) == 2 ==> f3 == 2
    ensures Num(f3) == 4 ==> f3 == 4
    ensures Num(f3) == 5 ==> f3 == 5
  {
    hide Num;
    SmallNums();
    if Num(f3) == 0 { RiscvDecoder.NumInjective(f3, 0); }
    if Num(f3) == 1 { RiscvDecoder.NumInjective(f3, 1); }
    if Num(f3) == 2 { RiscvDecoder.NumInjective(f3, 2); }
    if Num(f3) == 4 { RiscvDecoder.NumInjective(f3, 4); }
    if Num(f3) == 5 { RiscvDecoder.NumInjective(f3, 5); }
  }

  /** For instructions of RV32I the validator compares what their kind calls for. */
  lemma ClassAgrees(ir: Word)
    requires Decode(ir) != Illegal
    ensures Lockstep.ClassOf(ir) == KindOf(Decode(ir))
  {
    hide Num, Reg, DecodeFields, KindOf, Lockstep.ClassOf, OpcodeWord;
    var n, f3 := Num(ir & 0x7f), Num((ir >> 12) & 7);
    var call := ir == 0x0000_0073 || ir == 0x0010_0073;
    if call { CallWord(ir); }
    KindOfFields(n, f3, Num((ir >> 25) & 0x7f), Reg(ir >> 7), Reg(ir >> 15), Reg(ir >> 20), (ir >> 20) & 0x1f, call,
      ir);
    if RvOpcode(n) {
      OpcodeNum(n);
      RiscvDecoder.NumInjective(ir & 0x7f, OpcodeWord(n));
      FunctWord((ir >> 12) & 7);
      ClassByOpcode(ir, n);
    }
  }

  /** ECALL and EBREAK. */
  lemma CallWord(ir: Word)
    requires ir == 0x0000_0073 || ir == 0x0010_0073
    ensures Num(ir & 0x7f) == 0x73 && Lockstep.ClassOf(ir) == Lockstep.Other
  {
    hide Num;
    RiscvDecoder.SystemWords(ir);
    RiscvDecoder.Constants();
  }

  // ---- records

  /** Which byte of its word a load begins at, as the core reports it. */
  function ByteOffset(w: Width, addr: Word): Word {
    match w
    case ByteWide => Lane(addr)
    case HalfWide => addr & 2
    case WordWide => 0
  }

  /** The address of a load that is aligned, as the record gives it. */
  lemma LoadReported(w: Width, addr: Word)
    requires Aligned(addr, w)
    ensures Lockstep.ByteAddress(WordAddress(addr), ByteOffset(w, addr)) == addr
  {
    hide WordAddress, Lane, Lockstep.ByteAddress;
    match w {
      case ByteWide => WithLane(addr);
      case HalfWide => WithHalf(addr);
      case WordWide => WithNothing(addr);
    }
  }

  lemma WithLane(addr: Word)
    ensures Lockstep.ByteAddress(WordAddress(addr), Lane(addr)) == addr
  {
  }

  lemma WithHalf(addr: Word)
    requires addr & 1 == 0
    ensures Lockstep.ByteAddress(WordAddress(addr), addr & 2) == addr
  {
  }

  lemma WithNothing(addr: Word)
    requires addr & 3 == 0
    ensures Lockstep.ByteAddress(WordAddress(addr), 0) == addr
  {
  }

  /** Instructions that write a register. */
  predicate Writes(i: Instr) {
    i.Lui? || i.Auipc? || i.Jal? || i.Jalr? || i.Load? || i.AluImm? || i.AluReg?
  }

  /** The value an instruction computes for its register, even if that is x0. */
  function Produced(s: State, i: Instr): Word
    requires s.Ok() && Regs(i)
  {
    match i
    case Lui(_, imm) => imm
    case Auipc(_, imm) => Plus(s.pc, imm)
    case Jal(_, _) => Plus(s.pc, 4)
    case Jalr(_, _, _) => Plus(s.pc, 4)
    case Load(w, signed, _, rs1, imm) => LoadValue(s.mem, Num(Plus(s.x[rs1], imm)), w, signed)
    case AluImm(op, _, rs1, v) => Operate(op, s.x[rs1], v)
    case AluReg(op, _, rs1, rs2) => Operate(op, s.x[rs1], s.x[rs2])
    case _ => 0
  }

  lemma ProducedIsWritten(s: State, i: Instr)
    requires s.Ok() && Regs(i) && Execute(s, i).Next?
    ensures Execute(s, i).state.x == if Writes(i) then Written(s.x, i.rd, Produced(s, i)) else s.x
  {
    hide Num, Plus, LoadValue, StoreBytes, Operate, Taken, RiscvIsa.Written, Aligned;
  }

  function Ir(s: State): Word
    requires s.Ok()
  {
    LoadWord(s.mem, Num(s.pc))
  }

  /** The instruction at the program counter. */
  function Current(s: State): (i: Instr)
    requires s.Ok()
    ensures Regs(i)
  {
    DecodedRegs(Ir(s));
    Decode(Ir(s))
  }

  /** The record is one of the instruction at the program counter: its place and word, and what it
      computes, loads from, or stores. */
  predicate Shows(s: State, rec: Lockstep.Record)
    requires s.Ok()
  {
    var i := Current(s);
    rec.pc == s.pc && rec.ir == Ir(s) &&
    if i.Load? then Lockstep.LoadAddress(rec) == Plus(s.x[i.rs1], i.imm)
    else if i.Store? then
      var a := Plus(s.x[i.rs1], i.imm);
      rec.dAddr == WordAddress(a) && rec.dWdata == StoreData(i.width, s.x[i.rs2], a) &&
      rec.dWmask == StoreMask(i.width, a)
    else Writes(i) ==> rec.result == Produced(s, i)
  }

  function TargetOf(i: Instr): nat {
    if Writes(i) then i.rd else 0
  }

  /** The record of the instruction at the program counter, and its store if it is one. */
  function CycleOf(s: State): Lockstep.Cycle
    requires s.Ok()
  {
    var i := Current(s);
    var none := CoreMemory.Request(true, Num(s.pc), 0, false, false, 0, 0);
    var rec := Lockstep.Record(true, s.pc, Ir(s), TargetOf(i), Produced(s, i), 0, 0, 0, 0);
    if i.Load? then
      var a := Plus(s.x[i.rs1], i.imm);
      Lockstep.Cycle(true, none, rec.(dAddr := WordAddress(a), dBaddr := ByteOffset(i.width, a)), 0)
    else if i.Store? then
      var a, v := Plus(s.x[i.rs1], i.imm), s.x[i.rs2];
      Lockstep.Cycle(true, StoreRequest(i.width, a, v, Num(s.pc)), rec.(dAddr := WordAddress(a),
        dWdata := StoreData(i.width, v, a), dWmask := StoreMask(i.width, a)), 0)
    else Lockstep.Cycle(true, none, rec, 0)
  }

  lemma LegalNow(s: State)
    requires s.Ok() && Step(s).Next?
    ensures Decode(Ir(s)) != Illegal && (Current(s).Load? ==> Aligned(Plus(s.x[Current(s).rs1], Current(s).imm),
              Current(s).width))
  {
    hide Num, Plus, LoadWord, Decode, LoadValue, StoreBytes, Operate, Taken, RiscvIsa.Written, Aligned;
  }

  lemma CycleShows(s: State)
    requires s.Ok() && Step(s).Next?
    ensures Shows(s, CycleOf(s).rec) && Lockstep.PrimaryFaithful(CycleOf(s)) && CycleOf(s).ok
  {
    hide Num, Plus, LoadWord, Decode, Step, Produced, StoreData, StoreMask, WordAddress, ByteOffset,
         Lockstep.ByteAddress, Lockstep.ClassOf, Aligned;
    var i := Current(s);
    LegalNow(s);
    ClassAgrees(Ir(s));
    if i.Load? { LoadReported(i.width, Plus(s.x[i.rs1], i.imm)); }
  }

  /** The records agree in all that the validator looks at, and in the mask of a store. */
  predicate Alike(a: Lockstep.Record, b: Lockstep.Record) {
    a.pc == b.pc && a.ir == b.ir &&
    match Lockstep.ClassOf(a.ir)
    case Load => Lockstep.LoadAddress(a) == Lockstep.LoadAddress(b)
    case Store => a.dAddr == b.dAddr && a.dWdata == b.dWdata && a.dWmask == b.dWmask
    case Register => a.result == b.result
    case Other => true
  }

  /** Any two records of the instruction are alike. */
  lemma ShowsAlike(s: State, a: Lockstep.Record, b: Lockstep.Record)
    requires s.Ok() && Step(s).Next? && Shows(s, a) && Shows(s, b)
    ensures Alike(a, b)
  {
    hide Num, Plus, LoadWord, Decode, Step, Produced, StoreData, StoreMask, WordAddress, Lockstep.LoadAddress,
         Lockstep.ClassOf;
    LegalNow(s);
    ClassAgrees(Ir(s));
  }

  lemma AlikeAgree(a: Lockstep.Record, b: Lockstep.Record, r: Lockstep.Record)
    requires Alike(a, b)
    ensures Lockstep.Agree(a, r) <==> Lockstep.Agree(b, r)
    ensures Lockstep.ClassOf(a.ir).Store? ==> a.dWmask == b.dWmask
  {
    hide Lockstep.LoadAddress, Lockstep.ClassOf, Lockstep.Masked;
  }

  /** The byte lanes of a word that a mask selects. */
  function Lanes(data: Word, mask: bv4): Word {
    data & ExpandWmask(mask)
  }

  /** The record of another core shows what the instruction at `s` computes, loads from, or stores. */
  predicate ShowsValues(s: State, rec: Lockstep.Record)
    requires s.Ok()
  {
    var i := Current(s);
    rec.pc == s.pc && rec.ir == Ir(s) &&
    if i.Load? then Lockstep.LoadAddress(rec) == Plus(s.x[i.rs1], i.imm)
    else if i.Store? then
      var a := Plus(s.x[i.rs1], i.imm);
      rec.dAddr == WordAddress(a) &&
      Lanes(rec.dWdata, rec.dWmask) == Lanes(StoreData(i.width, s.x[i.rs2], a), StoreMask(i.width, a))
    else Writes(i) ==> rec.result == Produced(s, i)
  }

  lemma MaskedLanes(r: Lockstep.Record)
    ensures Lockstep.MaskedData(r) == Lanes(r.dWdata, r.dWmask)
  {
  }

  /** The validator accepts exactly the records that show these values. */
  lemma AgreesExactly(s: State, a: Lockstep.Record, r: Lockstep.Record)
    requires s.Ok() && Step(s).Next? && Shows(s, a)
    ensures Lockstep.Agree(a, r) <==> ShowsValues(s, r)
  {
    hide Num, Plus, LoadWord, Decode, Step, Produced, StoreData, StoreMask, WordAddress, ExpandWmask, Lanes,
         Lockstep.LoadAddress, Lockstep.ClassOf, Lockstep.MaskedData;
    LegalNow(s);
    ClassAgrees(Ir(s));
    MaskedLanes(a);
    MaskedLanes(r);
  }

  /** A round is good or not whichever of these records the primary shows. */
  lemma GoodAlike(s: State, f: Lockstep.Cycle, v: nat -> Lockstep.Cycle, exact: bool)
    requires s.Ok() && Step(s).Next? && Shows(s, f.rec) && Lockstep.PrimaryFaithful(f)
    ensures Lockstep.GoodRound(f, v, exact) <==> Lockstep.GoodRound(CycleOf(s), v, exact)
  {
    hide Lockstep.Agree, Lockstep.ReplicaFaithful, Lockstep.ClassOf, Lockstep.PrimaryFaithful, CycleOf, Step, Decode,
         Shows;
    CycleShows(s);
    ShowsAlike(s, f.rec, CycleOf(s).rec);
    AlikeAgree(f.rec, CycleOf(s).rec, v(Lockstep.Cycles(v) - 1).rec);
  }
}
