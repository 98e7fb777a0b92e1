/**
 * The functional core (sim/functional_core.cpp) on the shared memory: each step is a step of RV32I,
 * up to what JALR does to its target.
 */
module FunctionalCore {
  import opened ByteMemory
  import opened CoreMemory
  import opened RetirementRecords
  import opened RiscvDecoder
  import opened RiscvIsa
  import opened WordBytes
  import Lockstep

  const INITIAL_PC: Word := 0x0001_0000
  const INITIAL_SP: Word := 0x001e_6400
  const REG_SP: nat := 2

  // ---- arithmetic on the host

  /** A comparison of int32_t: unsigned, with the sign bits flipped. */
  predicate SignedLess(a: Word, b: Word) {
    (a ^ SIGN) < (b ^ SIGN)
  }

  /** A right shift of int32_t. */
  function SignedShift(a: Word, n: Word): Word
    requires n < 32
  {
    if a & SIGN == 0 then Shr(a, n) else Not(Shr(Not(a), n))
  }

  predicate IsShift(op: Alu) { op == Sll || op == Srl || op == Sra }

  /** The result of an operation; a shift amount is in range. */
  function Result(op: Alu, a: Word, b: Word): Word
    requires IsShift(op) ==> b < 32
  {
    match op
    case Add => Plus(a, b)
    case Sub => a - b
    case Sll => Shl(a, b)
    case Slt => if SignedLess(a, b) then 1 else 0
    case Sltu => if a < b then 1 else 0
    case Xor => a ^ b
    case Srl => Shr(a, b)
    case Sra => SignedShift(a, b)
    case Or => a | b
    case And => a & b
  }

  predicate Condition(c: Cond, a: Word, b: Word) {
    match c
    case Eq => a == b
    case Ne => a != b
    case Lt => SignedLess(a, b)
    case Ge => !SignedLess(a, b)
    case Ltu => a < b
    case Geu => a >= b
  }

  lemma SignedOrder(a: Word, b: Word)
    ensures SignedLess(a, b) <==> Less(a, b)
  {
  }

  function Not(a: Word): Word { !a }

  lemma OneMore(a: Word, n: Word)
    requires 0 < n < 32
    ensures Shr(a, n) == Shr(Shr(a, n - 1), 1)
  {
  }

  lemma Positive(a: Word, n: Word)
    requires a & SIGN == 0 && n < 32
    ensures Shr(a, n) & SIGN == 0
  {
  }

  /** A shift by one place copies the sign, of a word and of its complement. */
  lemma OnePlace(c: Word)
    requires c & SIGN == 0
    ensures Shr(c, 1) == SignKept(c) && Not(Shr(c, 1)) == SignKept(Not(c))
  {
  }

  lemma Complement(a: Word)
    ensures a & SIGN != 0 ==> Not(a) & SIGN == 0
  {
  }

  lemma ShiftOnce(a: Word, n: Word)
    requires 0 < n < 32
    ensures n - 1 < 32 && SignedShift(a, n) == SignKept(SignedShift(a, n - 1))
  {
    hide Shr, Not, SignKept;
    var b := if a & SIGN == 0 then a else Not(a);
    Complement(a);
    OneMore(b, n);
    Positive(b, n - 1);
    OnePlace(Shr(b, n - 1));
  }

  lemma ShiftNone(a: Word)
    ensures SignedShift(a, 0) == a
  {
  }

  /** One shift by `n` is `n` shifts by one. */
  lemma {:induction false} SignedShiftAgrees(a: Word, n: Word)
    requires n < 32
    ensures SignedShift(a, n) == ShiftRight(a, n)
    decreases n
  {
    hide SignedShift;
    if n == 0 {
      ShiftNone(a);
    } else {
      Smaller(n);
      SignedShiftAgrees(a, n - 1);
      ShiftOnce(a, n);
    }
  }

  /** The host's arithmetic is the ISA's. */
  lemma ResultAgrees(op: Alu, a: Word, b: Word)
    ensures Result(op, a, if IsShift(op) then Five(b) else b) == Operate(op, a, b)
  {
    hide Result, Operate, Five;
    if IsShift(op) { ShiftAgrees(op, a, b); } else { PlainAgrees(op, a, b); }
  }

  lemma ShiftAgrees(op: Alu, a: Word, b: Word)
    requires IsShift(op)
    ensures Result(op, a, Five(b)) == Operate(op, a, b)
  {
    hide Result, Operate, Five;
    match op {
      case Sll => LeftAgrees(a, b);
      case Srl => RightAgrees(a, b);
      case Sra => ArithmeticAgrees(a, b);
    }
  }

  lemma LeftAgrees(a: Word, b: Word)
    ensures Result(Sll, a, Five(b)) == Operate(Sll, a, b)
  {
    hide Shl, Five;
  }

  lemma RightAgrees(a: Word, b: Word)
    ensures Result(Srl, a, Five(b)) == Operate(Srl, a, b)
  {
    hide Shr, Five;
  }

  lemma ArithmeticAgrees(a: Word, b: Word)
    ensures Result(Sra, a, Five(b)) == Operate(Sra, a, b)
  {
    hide SignedShift, ShiftRight, Five;
    SignedShiftAgrees(a, Five(b));
  }

  lemma PlainAgrees(op: Alu, a: Word, b: Word)
    requires !IsShift(op)
    ensures Result(op, a, b) == Operate(op, a, b)
  {
    hide SignedShift, ShiftRight, SignedLess, Less, Plus, Shl, Shr;
    SignedOrder(a, b);
  }

  lemma ConditionAgrees(c: Cond, a: Word, b: Word)
    ensures Condition(c, a, b) == Taken(c, a, b)
  {
    SignedOrder(a, b);
  }

  // ---- the core's effect

  /** The core's side of the memory interface (CoreMemoryIF); the memory sees it as a request. */
  datatype MemIf = MemIf(en: bool, iAddr: Word, dAddr: Word, dRe: bool, dWe: bool, wdata: Word, wmask: bv4) {
    function Driven(): Request {
      Request(en, Num(iAddr), Num(dAddr), dRe, dWe, wdata, wmask)
    }
  }

  /** Where a JALR goes: the link is written before the base is read, and bit 0 is kept. */
  function CoreTarget(s: State, i: Instr): Word
    requires s.Ok() && Regs(i) && i.Jalr?
  {
    Plus(if i.rd == i.rs1 then Plus(s.pc, 4) else s.x[i.rs1], i.imm)
  }

  /** A JALR whose link register is not its base, to an even address; or one that writes to its
      base and lands where it should all the same. Every other instruction. */
  predicate JumpKept(s: State, i: Instr)
    requires s.Ok() && Regs(i)
  {
    i.Jalr? ==>
      if i.rd != i.rs1 then Plus(s.x[i.rs1], i.imm) & 1 == 0
      else Plus(Plus(s.pc, 4), i.imm) == Plus(s.x[i.rs1], i.imm) & 0xffff_fffe
  }

  /** JALR x1, 0(x1) with x1 = 0x100 at 0: the core goes on at 4, the ISA at 0x100. */
  lemma LinkedTooEarly(s: State)
    requires s.Ok() && s.pc == 0 && s.x[1] == 0x100
    ensures CoreTarget(s, Jalr(1, 1, 0)) == 4 && !JumpKept(s, Jalr(1, 1, 0))
    ensures Execute(s, Jalr(1, 1, 0)) == Next(s.(pc := 0x100, x := s.x[1 := 4]))
  {
    assert Plus(0x100, 0) == 0x100 && Plus(0, 4) == 4 && Plus(4, 0) == 4 && (0x100 as Word) & 0xffff_fffe == 0x100 &&
           (0x100 as Word) & 3 == 0;
  }

  lemma BitZero(t: Word)
    ensures t == t & 0xffff_fffe <==> t & 1 == 0
  {
  }

  /** What the switch leaves behind, if the ISA lets the instruction complete. */
  ghost predicate Effect(s: State, i: Instr, x: seq<Word>, npc: Word, flat: Flat, q: Request)
    requires s.Ok() && Regs(i)
  {
    Execute(s, i).Next? ==>
      var t := Execute(s, i).state;
      |x| == 32 && x[0 := 0] == t.x && (Writes(i) ==> x[i.rd] == Produced(s, i)) && flat != [] &&
      BytesIn(Served(flat, q)) == t.mem &&
      npc == if i.Jalr? then CoreTarget(s, i) else t.pc
  }

  function WithHigh(v: Word, signed: bool, sign: Word, high: Word): Word {
    v | (if signed && v & sign != 0 then high else 0)
  }

  lemma HighAgrees(v: Word, signed: bool, sign: Word, high: Word)
    ensures WithHigh(v, signed, sign, high) == SignExtended(v, signed, sign, high)
  {
    assert v | 0 == v;
  }

  /** The bytes a load has read, extended to a word. */
  function Extended(w: Width, signed: bool, data: seq<bv8>): Word
    requires |data| == WidthOf(w)
  {
    match w
    case ByteWide => WithHigh(data[0] as Word, signed, 0x80, 0xffff_ff00)
    case HalfWide => WithHigh(FromBytes(data[0], data[1], 0, 0), signed, 0x8000, 0xffff_0000)
    case WordWide => FromBytes(data[0], data[1], data[2], data[3])
  }

  /** A load reads what the ISA loads: at any address, but for a word that is not aligned. */
  lemma LoadAgrees(flat: Flat, a: Word, w: Width, signed: bool, data: seq<bv8>)
    requires flat != [] && |data| == WidthOf(w) && (w.WordWide? ==> Aligned(a, w))
    requires Spells(flat, Num(if w.WordWide? then WordAddress(a) else a), data)
    ensures LoadValue(BytesIn(flat), Num(a), w, signed) == Extended(w, signed, data)
  {
    hide Num, BytesIn, ByteAt, LoadValue, Extended, ByteIn, WordAddress;
    if w.WordWide? { AlignedWord(a); }
    forall k: nat | k < |data|
      ensures data[k] == ByteIn(BytesIn(flat), Num(a) + k)
    {
      ByteInFlat(flat, Num(a) + k);
    }
    assert data[0] == ByteIn(BytesIn(flat), Num(a));
    SameExtension(BytesIn(flat), Num(a), w, signed, data);
  }

  lemma SameExtension(mem: Bytes, a: nat, w: Width, signed: bool, data: seq<bv8>)
    requires mem != [] && |data| == WidthOf(w) && data[0] == ByteIn(mem, a) &&
             forall k: nat :: k < |data| ==> data[k] == ByteIn(mem, a + k)
    ensures LoadValue(mem, a, w, signed) == Extended(w, signed, data)
  {
    hide ByteIn, FromBytes, WithHigh, SignExtended;
    match w {
      case ByteWide =>
        HighAgrees(data[0] as Word, signed, 0x80, 0xffff_ff00);
      case HalfWide =>
        assert data[1] == ByteIn(mem, a + 1);
        HighAgrees(FromBytes(data[0], data[1], 0, 0), signed, 0x8000, 0xffff_0000);
      case WordWide =>
        assert data[1] == ByteIn(mem, a + 1) && data[2] == ByteIn(mem, a + 2) && data[3] == ByteIn(mem, a + 3);
    }
  }

  lemma AlignedWord(a: Word)
    requires a & 3 == 0
    ensures WordAddress(a) == a
  {
  }

  lemma WrittenZero(x: seq<Word>, rd: nat, v: Word)
    requires |x| == 32 && x[0] == 0 && rd < 32
    ensures x[rd := v][0 := 0] == RiscvIsa.Written(x, rd, v)
  {
  }

  /** The switch has only written a register: the result of a jump or of an upper immediate ... */
  lemma JumpDone(inst: Inst, s: State, i: Instr, x: seq<Word>, npc: Word, flat: Flat, q: Request)
    requires s.Ok() && Regs(i) && Means(inst, i, s.pc) && inst.rd < 32 && inst.rs1 < 32 && flat != [] &&
             s.mem == BytesIn(flat) && !q.dWe && |x| == 32
    requires inst.id.LUI? || inst.id.AUIPC? || inst.id.JAL? || inst.id.JALR?
    requires x == s.x[inst.rd := if inst.id.LUI? then inst.imm else if inst.id.AUIPC? then inst.npc else Plus(s.pc, 4)]
    requires npc == if inst.id.JAL? then inst.npc else if inst.id.JALR? then Plus(x[inst.rs1], inst.imm)
               else Plus(s.pc, 4)
    ensures Effect(s, i, x, npc, flat, q)
  {
    hide Num, Plus, BytesIn;
    WrittenZero(s.x, inst.rd, x[inst.rd]);
  }

  /** If the instruction completes, it writes `v` to register `rd` and goes on. */
  predicate ValueIs(s: State, i: Instr, rd: nat, v: Word)
    requires s.Ok() && Regs(i)
  {
    Execute(s, i).Next? ==>
      Writes(i) && i.rd == rd < 32 && v == Produced(s, i) &&
      Execute(s, i).state == s.(x := RiscvIsa.Written(s.x, rd, v), pc := Plus(s.pc, 4))
  }

  /** ... or a value that is the ISA's. */
  lemma ValueDone(s: State, i: Instr, rd: nat, v: Word, flat: Flat, q: Request)
    requires s.Ok() && Regs(i) && rd < 32 && flat != [] && s.mem == BytesIn(flat) && !q.Stores() && !i.Jalr?
    requires ValueIs(s, i, rd, v)
    ensures Effect(s, i, s.x[rd := v], Plus(s.pc, 4), flat, q)
  {
    hide Num, Plus, BytesIn, Execute, Produced;
    WrittenZero(s.x, rd, v);
  }

  lemma LoadIs(inst: Inst, s: State, i: Instr, addr: Word, v: Word)
    requires s.Ok() && Regs(i) && Means(inst, i, s.pc) && inst.id.LD? && inst.rs1 < 32 && inst.rd < 32 &&
             addr == Plus(s.x[inst.rs1], inst.imm)
    requires Aligned(addr, inst.id.w) ==> v == LoadValue(s.mem, Num(addr), inst.id.w, inst.id.s)
    ensures !i.Jalr? && ValueIs(s, i, inst.rd, v)
  {
    hide Num, Plus, LoadValue, Aligned, RiscvIsa.Written;
  }

  lemma ImmediateIs(inst: Inst, s: State, i: Instr, b: Word)
    requires s.Ok() && Regs(i) && Means(inst, i, s.pc) && inst.id.OPI? && inst.rs1 < 32 && inst.rd < 32
    requires b == if inst.id.op == Srl || inst.id.op == Sra then inst.shamt else inst.imm
    ensures !i.Jalr? && ValueIs(s, i, inst.rd, Operate(inst.id.op, s.x[inst.rs1], b))
  {
    hide Num, Plus, Operate, RiscvIsa.Written;
  }

  lemma RegistersAre(inst: Inst, s: State, i: Instr)
    requires s.Ok() && Regs(i) && Means(inst, i, s.pc) && inst.id.OPR? && inst.rs1 < 32 && inst.rs2 < 32 && inst.rd < 32
    ensures !i.Jalr? && ValueIs(s, i, inst.rd, Operate(inst.id.op, s.x[inst.rs1], s.x[inst.rs2]))
  {
    hide Num, Plus, Operate, RiscvIsa.Written;
  }

  /** A store's request, served, is the ISA's store. */
  lemma StoreDone(inst: Inst, s: State, i: Instr, addr: Word, flat: Flat, q: Request)
    requires s.Ok() && Regs(i) && Means(inst, i, s.pc) && inst.id.ST? && inst.rs1 < 32 && inst.rs2 < 32 &&
             addr == Plus(s.x[inst.rs1], inst.imm)
    requires flat != [] && s.mem == BytesIn(flat) && q == StoreRequest(inst.id.w, addr, s.x[inst.rs2], q.iAddr)
    ensures Effect(s, i, s.x, Plus(s.pc, 4), flat, q)
  {
    hide Num, Plus, BytesIn, StoreBytes, Served, StoreRequest, Aligned;
    if Aligned(addr, inst.id.w) { StoreServed(flat, inst.id.w, addr, s.x[inst.rs2], q.iAddr); }
    assert s.x[0 := 0] == s.x;
  }

  lemma BranchDone(inst: Inst, s: State, i: Instr, npc: Word, flat: Flat, q: Request)
    requires s.Ok() && Regs(i) && Means(inst, i, s.pc) && inst.id.BR? && inst.rs1 < 32 && inst.rs2 < 32 && flat != [] &&
             s.mem == BytesIn(flat) && !q.dWe
    requires npc == if Taken(inst.id.c, s.x[inst.rs1], s.x[inst.rs2]) then inst.npc else Plus(s.pc, 4)
    ensures Effect(s, i, s.x, npc, flat, q)
  {
    hide Num, Plus, BytesIn, Taken;
    assert s.x[0 := 0] == s.x;
  }

  /** The validator's class of a store is the decoder's. */
  lemma StoreClass(ir: Word)
    ensures Lockstep.ClassOf(ir).Store? <==> StoreWord(ir)
  {
  }

  /** The record tells of a store exactly when the core has requested it. */
  predicate Reported(ir: Word, m: MemIf) {
    m.en && if Lockstep.ClassOf(ir).Store? then m.dWe && !m.dRe else !m.dWe
  }

  /** What the memory interface and the byte offset say of a load or a store. */
  predicate Accessed(inst: Inst, s: State, m: MemIf, baddr: Word)
    requires s.Ok() && inst.rs1 < 32 && inst.rs2 < 32
  {
    var a := Plus(s.x[inst.rs1], inst.imm);
    (inst.id.LD? ==> m.dAddr == WordAddress(a) && baddr == ByteOffset(inst.id.w, a)) &&
    (inst.id.ST? ==>
       m.dAddr == WordAddress(a) && m.wdata == StoreData(inst.id.w, s.x[inst.rs2], a) &&
       m.wmask == StoreMask(inst.id.w, a))
  }

  /** The record that is logged, `x` being the registers before x0 is cleared. */
  lemma RecordShows(s: State, inst: Inst, x: seq<Word>, m: MemIf, baddr: Word, rec: Lockstep.Record)
    requires s.Ok() && Means(inst, Current(s), s.pc) && inst.rs1 < 32 && inst.rs2 < 32 && inst.rd < 32 && |x| == 32
    requires Accessed(inst, s, m, baddr) && RiscvIsa.Step(s).Next?
    requires Writes(Current(s)) ==> x[Current(s).rd] == Produced(s, Current(s))
    requires rec == Lockstep.Record(true, s.pc, Ir(s), inst.rd, x[inst.rd], m.dAddr, baddr, m.wdata, m.wmask)
    ensures Shows(s, rec)
  {
    hide Num, Plus, LoadWord, Decode, RiscvIsa.Step, Produced, StoreData, StoreMask, WordAddress, ByteOffset, Aligned,
         Lockstep.ByteAddress;
    LegalNow(s);
    var i := Current(s);
    if i.Load? { LoadReported(i.width, Plus(s.x[i.rs1], i.imm)); }
  }

  lemma StoreReported(pc: Word, ir: Word, m: MemIf)
    requires m.en && if Instruction(pc, ir).id.ST? then m.dWe && !m.dRe else !m.dWe
    ensures Reported(ir, m)
  {
    hide Instruction, StoreWord, Lockstep.ClassOf;
    StoresExactly(pc, ir);
    StoreClass(ir);
  }

  class Core {
    var halt: bool
    var memory: Memory?
    const reg: array<Word>
    var pc: Word
    var memif: MemIf
    var instif: Lockstep.Record
    var cntInst: nat
    var cntCycle: nat

    /** x0 is zero, and the registers are not part of the memory. */
    predicate Valid()
      reads `memory, reg, if memory != null then {memory} else {}
    {
      reg.Length == 32 && reg[0] == 0 && (memory != null ==> memory.Valid() && memory.mem != reg)
    }

    constructor ()
      ensures Valid() && fresh(reg) && memory == null && !halt
      ensures pc == INITIAL_PC && forall i :: 0 <= i < 32 ==> reg[i] == if i == REG_SP then INITIAL_SP else 0
      ensures cntInst == cntCycle == 0 && !instif.valid && memif == MemIf(false, 0, 0, false, false, 0, 0)
    {
      halt, memory, pc := false, null, INITIAL_PC;
      reg := new Word[32](i => if i == REG_SP then INITIAL_SP else 0);
      memif := MemIf(false, 0, 0, false, false, 0, 0);
      instif := Lockstep.Record(false, 0, 0, 0, 0, 0, 0, 0, 0);
      cntInst, cntCycle := 0, 0;
    }

    method BindMemory(m: Memory)
      requires Valid() && m.Valid() && m.mem != reg
      modifies `memory
      ensures Valid() && memory == m
    {
      memory := m;
    }

    method WriteReg(addr: nat, data: Word)
      requires Valid() && 0 < addr < 32
      modifies reg
      ensures Valid() && reg[..] == old(reg[..])[addr := data]
    {
      reg[addr] := data;
    }

    predicate Running()
      reads this
    {
      !halt && memory != null
    }

    /** The state of the machine: the memory is the primary's view. */
    ghost function Here(): (s: State)
      requires Valid() && memory != null
      reads `memory, `pc, reg, memory, memory.mem
      ensures s.Ok()
    {
      State(pc, reg[..], BytesIn(memory.View(0)))
    }

    /** The word at the program counter. */
    ghost function WordHere(): Word
      requires Valid() && memory != null
      reads this, reg, memory, memory.mem
    {
      FetchWord(memory.View(0), Num(pc))
    }

    /** About to execute `inst`, which means `i`, in state `s`; no memory access is requested yet. */
    ghost predicate Ready(inst: Inst, s: State, i: Instr)
      reads this, reg, memory, if memory != null then {memory.mem} else {}
    {
      Valid() && memory != null && s == Here() && inst.rd < 32 && inst.rs1 < 32 && inst.rs2 < 32 &&
      Regs(i) && Means(inst, i, pc) && memif.en && !memif.dRe && !memif.dWe
    }

    /** What the switch has left in the registers and in the memory interface. */
    ghost predicate Left(s: State, i: Instr, npc: Word)
      requires s.Ok() && Regs(i)
      reads this, reg, memory, if memory != null then {memory.mem} else {}
    {
      reg.Length == 32 && memory != null && memory.Valid() && Effect(s, i, reg[..], npc, memory.View(0), memif.Driven())
    }

    /** LUI, AUIPC, JAL and JALR. */
    method Jump(inst: Inst, ghost s: State, ghost i: Instr) returns (npc: Word)
      requires Ready(inst, s, i) && (inst.id.LUI? || inst.id.AUIPC? || inst.id.JAL? || inst.id.JALR?)
      modifies reg
      ensures Left(s, i, npc)
    {
      hide Num, Plus, BytesIn, Effect, Means, Memory.View, Regs;
      npc := Plus(pc, 4);
      match inst.id {
        case LUI =>
          reg[inst.rd] := inst.imm;
        case AUIPC =>
          reg[inst.rd] := inst.npc;
        case JAL =>
          reg[inst.rd] := Plus(pc, 4);
          npc := inst.npc;
        case JALR =>
          reg[inst.rd] := Plus(pc, 4);
          npc := Plus(reg[inst.rs1], inst.imm);
      }
      JumpDone(inst, s, i, reg[..], npc, memory.View(0), memif.Driven());
    }

    method Branch(inst: Inst, ghost s: State, ghost i: Instr) returns (npc: Word)
      requires Ready(inst, s, i) && inst.id.BR?
      ensures Left(s, i, npc)
    {
      hide Num, Plus, BytesIn, Condition, Taken, Effect, Means, Memory.View, Regs;
      npc := Plus(pc, 4);
      ConditionAgrees(inst.id.c, s.x[inst.rs1], s.x[inst.rs2]);
      if Condition(inst.id.c, reg[inst.rs1], reg[inst.rs2]) { npc := inst.npc; }
      BranchDone(inst, s, i, npc, memory.View(0), memif.Driven());
    }

    /** Arithmetic on a register and an immediate; a shift to the left is by the whole immediate,
        which, if it is too large, the host reduces. */
    method Immediate(inst: Inst, ghost s: State, ghost i: Instr)
      requires Ready(inst, s, i) && inst.id.OPI?
      modifies reg
      ensures Left(s, i, Plus(s.pc, 4))
    {
      hide Num, Plus, BytesIn, Result, Operate, Five, Effect, Means, Memory.View, Regs, Execute, RiscvIsa.Written;
      var op := inst.id.op;
      var b := if op == Srl || op == Sra then inst.shamt else inst.imm;
      var v := Result(op, reg[inst.rs1], if IsShift(op) then Five(b) else b);
      ResultAgrees(op, s.x[inst.rs1], b);
      ImmediateIs(inst, s, i, b);
      reg[inst.rd] := v;
      ValueDone(s, i, inst.rd, v, memory.View(0), memif.Driven());
    }

    /** Arithmetic on two registers; a shift is by the low five bits of the second. */
    method Registers(inst: Inst, ghost s: State, ghost i: Instr)
      requires Ready(inst, s, i) && inst.id.OPR?
      modifies reg
      ensures Left(s, i, Plus(s.pc, 4))
    {
      hide Num, Plus, BytesIn, Result, Operate, Five, Effect, Means, Memory.View, Regs, Execute, RiscvIsa.Written;
      var op := inst.id.op;
      var b := reg[inst.rs2];
      var v := Result(op, reg[inst.rs1], if IsShift(op) then Five(b) else b);
      ResultAgrees(op, s.x[inst.rs1], s.x[inst.rs2]);
      RegistersAre(inst, s, i);
      reg[inst.rd] := v;
      ValueDone(s, i, inst.rd, v, memory.View(0), memif.Driven());
    }

    /** A load reads its bytes directly, whatever their alignment, except that a word is read at the
        word address. */
    method Load(inst: Inst, addr: Word, ghost s: State, ghost i: Instr) returns (baddr: Word)
      requires Ready(inst, s, i) && inst.id.LD? && addr == Plus(s.x[inst.rs1], inst.imm)
      modifies reg, `memif
      ensures Left(s, i, Plus(s.pc, 4)) && memif == old(memif).(dRe := true, dAddr := WordAddress(addr)) &&
              baddr == ByteOffset(inst.id.w, addr)
    {
      hide Num, Plus, BytesIn, LoadValue, Lane, WordAddress, Memory.View, Effect, Means, Regs, Execute,
           RiscvIsa.Written, Aligned;
      memif := memif.(dRe := true, dAddr := WordAddress(addr));
      var w := inst.id.w;
      baddr := ByteOffset(w, addr);
      var v := ReadFrom(addr, w, inst.id.s);
      LoadIs(inst, s, i, addr, v);
      reg[inst.rd] := v;
      ValueDone(s, i, inst.rd, v, memory.View(0), memif.Driven());
    }

    method ReadFrom(addr: Word, w: Width, signed: bool) returns (v: Word)
      requires memory != null && memory.Valid()
      ensures Aligned(addr, w) ==> v == LoadValue(BytesIn(memory.View(0)), Num(addr), w, signed)
    {
      hide Num, BytesIn, LoadValue, Extended, WordAddress, Memory.View;
      var data := memory.Read(Num(if w == WordWide then WordAddress(addr) else addr), WidthOf(w));
      v := Extended(w, signed, data);
      if Aligned(addr, w) { LoadAgrees(memory.View(0), addr, w, signed, data); }
    }

    /** A store asks for its word, moved to the lanes it goes to. */
    method Store(inst: Inst, addr: Word, ghost s: State, ghost i: Instr)
      requires Ready(inst, s, i) && inst.id.ST? && addr == Plus(s.x[inst.rs1], inst.imm)
      modifies `memif
      ensures Left(s, i, Plus(s.pc, 4))
      ensures memif == old(memif).(dWe := true, dAddr := WordAddress(addr),
              wdata := StoreData(inst.id.w, reg[inst.rs2], addr),
                                   wmask := StoreMask(inst.id.w, addr))
    {
      hide Num, Plus, BytesIn, StoreData, StoreMask, WordAddress, Effect, Means, Memory.View, Regs;
      var w, v := inst.id.w, reg[inst.rs2];
      memif := memif.(dWe := true, dAddr := WordAddress(addr), wdata := StoreData(w, v, addr),
          wmask := StoreMask(w, addr));
      StoreDone(inst, s, i, addr, memory.View(0), memif.Driven());
    }

    /** The switch; an unknown instruction leaves everything as it was. */
    method Perform(inst: Inst, ghost s: State, ghost i: Instr) returns (known: bool, npc: Word, baddr: Word)
      requires Ready(inst, s, i)
      modifies reg, `memif
      ensures known <==> !inst.id.UNKNOWN?
      ensures known ==> Left(s, i, npc)
      ensures !known ==> i.Illegal? && reg[..] == old(reg[..]) && memif == old(memif)
      ensures memif.en && if inst.id.ST? then memif.dWe && !memif.dRe else !memif.dWe
      ensures Accessed(inst, s, memif, baddr)
    {
      hide Left, Effect, Plus, StoreData, StoreMask;
      var addr := Plus(reg[inst.rs1], inst.imm);
      known, npc, baddr := true, Plus(pc, 4), 0;
      match inst.id {
        case BR(_) => npc := Branch(inst, s, i);
        case LD(_, _) => baddr := Load(inst, addr, s, i);
        case ST(_) => Store(inst, addr, s, i);
        case OPI(_) => Immediate(inst, s, i);
        case OPR(_) => Registers(inst, s, i);
        case NOOP => NothingLeft(inst, s, i);
        case UNKNOWN => known := false;
        case _ => npc := Jump(inst, s, i);
      }
    }

    lemma NothingLeft(inst: Inst, s: State, i: Instr)
      requires Ready(inst, s, i) && inst.id.NOOP?
      ensures Left(s, i, Plus(pc, 4))
    {
      hide Num, Plus, BytesIn;
      assert s.x[0 := 0] == s.x;
    }

    /** The state of the machine once the memory has served the core's request. */
    ghost function After(): State
      requires Valid() && memory != null
      reads this, reg, memory, memory.mem
    {
      State(pc, reg[..], BytesIn(Served(memory.View(0), memif.Driven())))
    }

    method Fetch() returns (ir: Word)
      requires Valid() && memory != null
      ensures ir == WordHere()
    {
      hide Num, ByteAt, Memory.View;
      var data := memory.Read(Num(pc), 4);
      assert data[0] == ByteAt(memory.View(0), Num(pc) + 0);
      ir := FromBytes(data[0], data[1], data[2], data[3]);
    }

    /** One instruction: fetch, decode, execute, and log what was done. If the ISA lets the
        instruction complete, the core and its store are a step of the ISA. */
    method Drive() returns (ok: bool)
      requires Valid()
      modifies this, reg
      ensures Valid() && memory == old(memory) && halt == old(halt)
      ensures !old(Running()) ==> !ok && memif == old(memif)
      ensures old(Running()) ==> (ok <==> !Instruction(old(pc), old(WordHere())).id.UNKNOWN?)
      ensures cntCycle - old(cntCycle) == cntInst - old(cntInst)
      ensures if ok then cntInst == old(cntInst) + 1
              else cntInst == old(cntInst) && pc == old(pc) && reg[..] == old(reg[..])
      ensures old(Running()) && !ok ==> !instif.valid && Served(memory.View(0), memif.Driven()) == memory.View(0)
      ensures old(Running()) && RiscvIsa.Step(old(Here())).Next? ==> ok && Agrees(old(Here()), old(WordHere()), After())
      ensures ok ==> instif.valid && instif.pc == old(pc) && instif.ir == old(WordHere())
      ensures ok ==> instif.rd == Instruction(old(pc), old(WordHere())).rd &&
                     (instif.rd != 0 ==> instif.result == reg[instif.rd])
      ensures old(Running()) && RiscvIsa.Step(old(Here())).Next? ==> Shows(old(Here()), instif)
      ensures ok ==> Lockstep.PrimaryFaithful(Lockstep.Cycle(ok, memif.Driven(), instif, cntInst))
    {
      hide Num, BytesIn, Instruction, Agrees, Served, Memory.View, RiscvIsa.Step, Lockstep.PrimaryFaithful, Shows;
      if halt || memory == null { return false; }
      memif := memif.(en := true, dRe := false, dWe := false);
      instif := instif.(valid := false);
      var ir := Fetch();
      ok := Retire(ir);
      if !ok { NothingServed(memory.View(0), memif.Driven()); }
    }

    lemma NothingServed(flat: Flat, q: Request)
      requires flat != [] && !q.dWe
      ensures Served(flat, q) == flat
    {
    }

    /** Decode, execute and log the fetched instruction. */
    method Retire(ir: Word) returns (ok: bool)
      requires Valid() && Running() && memif.en && !memif.dRe && !memif.dWe && ir == WordHere()
      modifies this, reg
      ensures Valid() && memory == old(memory) && halt == old(halt) && (ok <==> !Instruction(old(pc), ir).id.UNKNOWN?)
      ensures cntCycle - old(cntCycle) == cntInst - old(cntInst)
      ensures if ok then cntInst == old(cntInst) + 1
              else
                cntInst == old(cntInst) && pc == old(pc) && reg[..] == old(reg[..]) && !memif.dWe &&
                instif == old(instif)
      ensures RiscvIsa.Step(old(Here())).Next? ==> ok && Agrees(old(Here()), ir, After())
      ensures ok ==> instif.valid && instif.pc == old(pc) && instif.ir == ir
      ensures ok ==> instif.rd == Instruction(old(pc), ir).rd && (instif.rd != 0 ==> instif.result == reg[instif.rd])
      ensures RiscvIsa.Step(old(Here())).Next? ==> Shows(old(Here()), instif)
      ensures ok ==> Lockstep.PrimaryFaithful(Lockstep.Cycle(ok, memif.Driven(), instif, cntInst))
    {
      hide Left, Num, Plus, BytesIn, Instruction, Decode, Means, Memory.View, RiscvIsa.Step, Agrees, Served,
           Lockstep.ClassOf, ByteOffset, WordAddress, Produced, Shows, Accessed;
      ghost var s := Here();
      var inst := Instruction(pc, ir);
      DecodeAgrees(pc, ir);
      DecodedRegs(ir);
      FetchIsa(s, ir);
      var npc, baddr;
      ok, npc, baddr := Perform(inst, s, Decode(ir));
      if !ok { return; }
      Conclude(s, ir, npc);
      StoreReported(pc, ir, memif);
      ghost var x := reg[..];
      Log(ir, inst.rd, npc, baddr);
      if RiscvIsa.Step(s).Next? { RecordShows(s, inst, x, memif, baddr, instif); }
    }

    /** Log the instruction and go on to the next one. */
    method Log(ir: Word, rd: nat, npc: Word, baddr: Word)
      requires Valid() || (reg.Length == 32 && (memory != null ==> memory.Valid() && memory.mem != reg))
      requires rd < reg.Length
      modifies `instif, `pc, `cntInst, `cntCycle, reg
      ensures Valid() && pc == npc && reg[..] == old(reg[..])[0 := 0] && cntInst == old(cntInst) + 1
      ensures cntCycle == old(cntCycle) + 1
      ensures instif == Lockstep.Record(true, old(pc), ir, rd, old(reg[rd]), memif.dAddr, baddr, memif.wdata,
                                        memif.wmask)
    {
      hide Memory.Valid;
      instif := Lockstep.Record(true, pc, ir, rd, reg[rd], memif.dAddr, baddr, memif.wdata, memif.wmask);
      pc := npc;
      reg[0] := 0;
      cntInst, cntCycle := cntInst + 1, cntCycle + 1;
    }

    lemma FetchIsa(s: State, ir: Word)
      requires Valid() && memory != null && s.pc == pc && s.mem == BytesIn(memory.View(0)) && s.Ok() && ir == WordHere()
      ensures s.pc & 3 == 0 ==> ir == LoadWord(s.mem, Num(s.pc))
      ensures RiscvIsa.Step(s).Next? ==> s.pc & 3 == 0 && !Decode(ir).Illegal?
    {
      hide Num, BytesIn, Decode, Plus, LoadWord;
      FetchAgrees(memory.View(0), Num(pc));
      DecodedRegs(ir);
    }

    lemma Conclude(s: State, ir: Word, npc: Word)
      requires reg.Length == 32 && s.Ok() && Regs(Decode(ir)) && Left(s, Decode(ir), npc) &&
               (s.pc & 3 == 0 ==> ir == LoadWord(s.mem, Num(s.pc)))
      ensures Agrees(s, ir, State(npc, reg[..][0 := 0], BytesIn(Served(memory.View(0), memif.Driven()))))
      ensures RiscvIsa.Step(s).Next? ==> ir == Ir(s) && (Writes(Current(s)) ==> reg[Current(s).rd] == Produced(s,
                Current(s)))
    {
      hide Num, Plus, BytesIn, Decode, LoadWord, Produced, Execute;
      EffectAgrees(s, ir, reg[..], npc, memory.View(0), memif.Driven());
    }
  }

  /** The registers, memory and program counter that the ISA asks for, but perhaps not the
      program counter, which is right exactly if the jump is kept. */
  ghost predicate Agrees(s: State, ir: Word, after: State)
    requires s.Ok()
  {
    DecodedRegs(ir);
    RiscvIsa.Step(s).Next? ==>
      after.x == RiscvIsa.Step(s).state.x && after.mem == RiscvIsa.Step(s).state.mem &&
      (after.pc == RiscvIsa.Step(s).state.pc <==> JumpKept(s, Decode(ir)))
  }

  lemma EffectAgrees(s: State, ir: Word, x: seq<Word>, npc: Word, flat: Flat, q: Request)
    requires s.Ok() && flat != [] && |x| == 32 && (s.pc & 3 == 0 ==> ir == LoadWord(s.mem, Num(s.pc)))
    requires Regs(Decode(ir)) && Effect(s, Decode(ir), x, npc, flat, q)
    ensures Agrees(s, ir, State(npc, x[0 := 0], BytesIn(Served(flat, q))))
  {
    hide Num, BytesIn, LoadWord, Decode, Plus, Served, Produced, Writes;
    var i := Decode(ir);
    if i.Jalr? { BitZero(Plus(s.x[i.rs1], i.imm)); }
  }
}
