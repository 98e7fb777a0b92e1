/**
 * RV32I as the RISC-V Unprivileged ISA defines it (chapter 2): instruction formats, and the effect
 * of an instruction on the program counter, the registers and a memory of bytes.
 */
module RiscvIsa {
  import opened WordBytes

  lemma FiveBits(x: Word)
    requires x < 32
    ensures Num(x) < 32
  {
    var a, b, c, d, e := x >> 1, x >> 2, x >> 3, x >> 4, x >> 5;
    Shifts(x);
    Half(x);
    Half(a);
    Half(b);
    Half(c);
    Half(d);
    assert e == 0;
  }

  lemma Shifts(x: Word)
    requires x < 32
    ensures (x >> 1) >> 1 == x >> 2 && (x >> 2) >> 1 == x >> 3 && (x >> 3) >> 1 == x >> 4 &&
            (x >> 4) >> 1 == x >> 5 == 0
  {
  }

  /** The register a five-bit field names. */
  function Reg(field: Word): (r: nat)
    ensures r < 32
  {
    FiveBits(field & 0x1f);
    Num(field & 0x1f)
  }

  // ---- instruction formats

  /** The bits of `mask`, if the instruction's top bit, the sign of every immediate, is set. */
  function SignBits(i: Word, mask: Word): Word {
    if i & 0x8000_0000 != 0 then mask else 0
  }

  /** The immediates, put together from their fields below the sign. */
  function ImmI(i: Word): Word { SignBits(i, 0xffff_f000) | FieldsI(i) }
  function FieldsI(i: Word): Word { i >> 20 }

  function ImmS(i: Word): Word { SignBits(i, 0xffff_f000) | FieldsS(i) }
  function FieldsS(i: Word): Word { ((i >> 25) << 5) | ((i >> 7) & 0x1f) }

  function ImmB(i: Word): Word { SignBits(i, 0xffff_f000) | FieldsB(i) }
  function FieldsB(i: Word): Word { (((i >> 7) & 1) << 11) | (((i >> 25) & 0x3f) << 5) | (((i >> 8) & 0xf) << 1) }

  function ImmU(i: Word): Word { (i >> 12) << 12 }

  function ImmJ(i: Word): Word { SignBits(i, 0xfff0_0000) | FieldsJ(i) }
  function FieldsJ(i: Word): Word {
    (((i >> 12) & 0xff) << 12) | (((i >> 20) & 1) << 11) | (((i >> 25) & 0x3f) << 5) | (((i >> 21) & 0xf) << 1)
  }

  datatype Cond = Eq | Ne | Lt | Ge | Ltu | Geu
  datatype Alu = Add | Sub | Sll | Slt | Sltu | Xor | Srl | Sra | Or | And
  datatype Width = ByteWide | HalfWide | WordWide

  datatype Instr =
    | Lui(rd: nat, imm: Word)
    | Auipc(rd: nat, imm: Word)
    | Jal(rd: nat, imm: Word)
    | Jalr(rd: nat, rs1: nat, imm: Word)
    | Branch(cond: Cond, rs1: nat, rs2: nat, imm: Word)
    | Load(width: Width, signed: bool, rd: nat, rs1: nat, imm: Word)
    | Store(width: Width, rs1: nat, rs2: nat, imm: Word)
    | AluImm(op: Alu, rd: nat, rs1: nat, operand: Word)
    | AluReg(op: Alu, rd: nat, rs1: nat, rs2: nat)
    | Fence
    | Environment
    | Illegal

  function BranchCond(f3: nat): Cond {
    if f3 == 0 then Eq
    else if f3 == 1 then Ne else if f3 == 4 then Lt else if f3 == 5 then Ge else if f3 == 6 then Ltu else Geu
  }

  /** The encodings of RV32I; everything else is illegal. */
  function Decode(i: Word): Instr {
    DecodeFields(Num(i & 0x7f), Num((i >> 12) & 7), Num((i >> 25) & 0x7f), Reg(i >> 7), Reg(i >> 15), Reg(i >> 20),
        (i >> 20) & 0x1f,
                 i == 0x0000_0073 || i == 0x0010_0073, i)
  }

  function DecodeFields(opcode: nat, f3: nat, f7: nat, rd: nat, rs1: nat, rs2: nat, shamt: Word, call: bool,
      i: Word): Instr {
    if opcode == 0x37 then Lui(rd, ImmU(i))
    else if opcode == 0x17 then Auipc(rd, ImmU(i))
    else if opcode == 0x6f then Jal(rd, ImmJ(i))
    else if opcode == 0x67 then if f3 == 0 then Jalr(rd, rs1, ImmI(i)) else Illegal
    else if opcode == 0x63 then if f3 == 2 || f3 == 3 then Illegal else Branch(BranchCond(f3), rs1, rs2, ImmB(i))
    else if opcode == 0x03 then DecodeLoad(f3, rd, rs1, ImmI(i))
    else if opcode == 0x23 then DecodeStore(f3, rs1, rs2, ImmS(i))
    else if opcode == 0x13 then DecodeImm(f3, f7, rd, rs1, ImmI(i), shamt)
    else if opcode == 0x33 then DecodeReg(f3, f7, rd, rs1, rs2)
    else if opcode == 0x0f && f3 == 0 then Fence
    else if call then Environment
    else Illegal
  }

  function DecodeLoad(f3: nat, rd: nat, rs1: nat, imm: Word): Instr {
    if f3 == 0 then Load(ByteWide, true, rd, rs1, imm)
    else if f3 == 1 then Load(HalfWide, true, rd, rs1, imm)
    else if f3 == 2 then Load(WordWide, false, rd, rs1, imm)
    else if f3 == 4 then Load(ByteWide, false, rd, rs1, imm)
    else if f3 == 5 then Load(HalfWide, false, rd, rs1, imm)
    else Illegal
  }

  function DecodeStore(f3: nat, rs1: nat, rs2: nat, imm: Word): Instr {
    if f3 == 0 then Store(ByteWide, rs1, rs2, imm)
    else if f3 == 1 then Store(HalfWide, rs1, rs2, imm)
    else if f3 == 2 then Store(WordWide, rs1, rs2, imm)
    else Illegal
  }

  function DecodeImm(f3: nat, f7: nat, rd: nat, rs1: nat, imm: Word, shamt: Word): Instr {
    if f3 == 0 then AluImm(Add, rd, rs1, imm)
    else if f3 == 1 then if f7 == 0 then AluImm(Sll, rd, rs1, shamt) else Illegal
    else if f3 == 2 then AluImm(Slt, rd, rs1, imm)
    else if f3 == 3 then AluImm(Sltu, rd, rs1, imm)
    else if f3 == 4 then AluImm(Xor, rd, rs1, imm)
    else if f3 == 5 then
      if f7 == 0 then AluImm(Srl, rd, rs1, shamt) else if f7 == 0x20 then AluImm(Sra, rd, rs1, shamt) else Illegal
    else if f3 == 6 then AluImm(Or, rd, rs1, imm)
    else AluImm(And, rd, rs1, imm)
  }

  function DecodeReg(f3: nat, f7: nat, rd: nat, rs1: nat, rs2: nat): Instr {
    if f7 == 0 then
      AluReg(if f3 == 0 then Add else if f3 == 1 then Sll else if f3 == 2 then Slt else if f3 == 3 then Sltu
             else if f3 == 4 then Xor else if f3 == 5 then Srl else if f3 == 6 then Or else And, rd, rs1, rs2)
    else if f7 == 0x20 && f3 == 0 then AluReg(Sub, rd, rs1, rs2)
    else if f7 == 0x20 && f3 == 5 then AluReg(Sra, rd, rs1, rs2)
    else Illegal
  }

  // ---- operations

  const SIGN: Word := 0x8000_0000

  /** Two's complement order, from the signs and the unsigned order. */
  predicate Less(a: Word, b: Word) {
    if a & SIGN == b & SIGN then a < b else a & SIGN != 0
  }

  /** Shift right by `n`, copying the sign one place at a time. */
  function ShiftRight(a: Word, n: Word): Word
    decreases n
  {
    if n == 0 then a else
      Smaller(n);
      SignKept(ShiftRight(a, n - 1))
  }

  function SignKept(b: Word): Word { (b >> 1) | (b & SIGN) }

  lemma Smaller(n: Word)
    requires n != 0
    ensures n - 1 < n
  {
  }

  /** A shift amount: the low five bits. */
  function Five(b: Word): (n: Word)
    ensures n < 32
  {
    b & 0x1f
  }

  function Shl(a: Word, n: Word): Word
    requires n < 32
  {
    a << n
  }

  function Shr(a: Word, n: Word): Word
    requires n < 32
  {
    a >> n
  }

  function Operate(op: Alu, a: Word, b: Word): Word {
    match op
    case Add => Plus(a, b)
    case Sub => a - b
    case Sll => Shl(a, Five(b))
    case Slt => if Less(a, b) then 1 else 0
    case Sltu => if a < b then 1 else 0
    case Xor => a ^ b
    case Srl => Shr(a, Five(b))
    case Sra => ShiftRight(a, Five(b))
    case Or => a | b
    case And => a & b
  }

  predicate Taken(c: Cond, a: Word, b: Word) {
    match c
    case Eq => a == b
    case Ne => a != b
    case Lt => Less(a, b)
    case Ge => !Less(a, b)
    case Ltu => a < b
    case Geu => a >= b
  }

  /** A sum of words, modulo 2^32. */
  function Plus(a: Word, b: Word): Word { a + b }

  // ---- memory

  type Bytes = seq<bv8>

  function ByteIn(mem: Bytes, a: nat): bv8
    requires mem != []
  {
    mem[a % |mem|]
  }

  function LoadWord(mem: Bytes, a: nat): Word
    requires mem != []
  {
    FromBytes(ByteIn(mem, a), ByteIn(mem, a + 1), ByteIn(mem, a + 2), ByteIn(mem, a + 3))
  }

  /** The bits of `high` set if `sign` is, in a signed value. */
  function SignExtended(v: Word, signed: bool, sign: Word, high: Word): Word {
    if signed && v & sign != 0 then v | high else v
  }

  function WidthOf(w: Width): nat {
    match w case ByteWide => 1 case HalfWide => 2 case WordWide => 4
  }

  /** A value of the width at `a`, extended to a word. */
  function LoadValue(mem: Bytes, a: nat, w: Width, signed: bool): Word
    requires mem != []
  {
    match w
    case ByteWide => SignExtended(ByteIn(mem, a) as Word, signed, 0x80, 0xffff_ff00)
    case HalfWide => SignExtended(FromBytes(ByteIn(mem, a), ByteIn(mem, a + 1), 0, 0), signed, 0x8000, 0xffff_0000)
    case WordWide => LoadWord(mem, a)
  }

  /** The low `n` bytes of `v` at `a` and the addresses behind it. */
  function StoreBytes(mem: Bytes, a: nat, v: Word, n: nat): (m: Bytes)
    requires mem != [] && n <= 4
    ensures |m| == |mem|
  {
    if n == 0 then mem else
      var m := StoreBytes(mem, a, v, n - 1);
      m[(a + (n - 1)) % |m| := ByteOf(v, n - 1)]
  }

  // ---- one step

  datatype State = State(pc: Word, x: seq<Word>, mem: Bytes) {
    /** x0 reads as zero. */
    predicate Ok() { |x| == 32 && x[0] == 0 && |mem| > 0 }
  }

  /** Writes to x0 are discarded. */
  function Written(x: seq<Word>, rd: nat, v: Word): (y: seq<Word>)
    requires |x| == 32 && rd < 32
    ensures |y| == 32 && y[0] == x[0]
  {
    if rd == 0 then x else x[rd := v]
  }

  /** An instruction either completes or is misaligned or illegal. */
  datatype Outcome = Next(state: State) | Exception

  predicate Aligned(a: Word, w: Width) {
    match w case ByteWide => true case HalfWide => a & 1 == 0 case WordWide => a & 3 == 0
  }

  /** Continue at `target`, which must be aligned. */
  function Goto(s: State, target: Word): Outcome {
    if target & 3 == 0 then Next(s.(pc := target)) else Exception
  }

  predicate Regs(i: Instr) {
    match i
    case Lui(rd, _) => rd < 32
    case Auipc(rd, _) => rd < 32
    case Jal(rd, _) => rd < 32
    case Jalr(rd, rs1, _) => rd < 32 && rs1 < 32
    case Branch(_, rs1, rs2, _) => rs1 < 32 && rs2 < 32
    case Load(_, _, rd, rs1, _) => rd < 32 && rs1 < 32
    case Store(_, rs1, rs2, _) => rs1 < 32 && rs2 < 32
    case AluImm(_, rd, rs1, _) => rd < 32 && rs1 < 32
    case AluReg(_, rd, rs1, rs2) => rd < 32 && rs1 < 32 && rs2 < 32
    case _ => true
  }

  lemma DecodedRegs(i: Word)
    ensures Regs(Decode(i))
  {
    hide Num, Reg, Regs, DecodeFields;
    FieldRegs(Num(i & 0x7f), Num((i >> 12) & 7), Num((i >> 25) & 0x7f), Reg(i >> 7), Reg(i >> 15), Reg(i >> 20),
        (i >> 20) & 0x1f,
              i == 0x0000_0073 || i == 0x0010_0073, i);
  }

  lemma FieldRegs(opcode: nat, f3: nat, f7: nat, rd: nat, rs1: nat, rs2: nat, shamt: Word, call: bool, i: Word)
    requires rd < 32 && rs1 < 32 && rs2 < 32
    ensures Regs(DecodeFields(opcode, f3, f7, rd, rs1, rs2, shamt, call, i))
  {
    hide ImmI, ImmS, ImmB, ImmU, ImmJ;
  }

  function Execute(s: State, i: Instr): (o: Outcome)
    requires s.Ok() && Regs(i)
    ensures o.Next? ==> o.state.Ok()
  {
    var next := Plus(s.pc, 4);
    match i
    case Lui(rd, imm) => Goto(s.(x := Written(s.x, rd, imm)), next)
    case Auipc(rd, imm) => Goto(s.(x := Written(s.x, rd, Plus(s.pc, imm))), next)
    case Jal(rd, imm) => Goto(s.(x := Written(s.x, rd, next)), Plus(s.pc, imm))
    case Jalr(rd, rs1, imm) => Goto(s.(x := Written(s.x, rd, next)), Plus(s.x[rs1], imm) & 0xffff_fffe)
    case Branch(c, rs1, rs2, imm) => Goto(s, if Taken(c, s.x[rs1], s.x[rs2]) then Plus(s.pc, imm) else next)
    case Load(w, signed, rd, rs1, imm) =>
      var a := Plus(s.x[rs1], imm);
      if Aligned(a, w) then Goto(s.(x := Written(s.x, rd, LoadValue(s.mem, Num(a), w, signed))), next) else Exception
    case Store(w, rs1, rs2, imm) =>
      var a := Plus(s.x[rs1], imm);
      if Aligned(a, w) then Goto(s.(mem := StoreBytes(s.mem, Num(a), s.x[rs2], WidthOf(w))), next) else Exception
    case AluImm(op, rd, rs1, v) => Goto(s.(x := Written(s.x, rd, Operate(op, s.x[rs1], v))), next)
    case AluReg(op, rd, rs1, rs2) => Goto(s.(x := Written(s.x, rd, Operate(op, s.x[rs1], s.x[rs2]))), next)
    case Fence => Goto(s, next)
    case Environment => Goto(s, next)
    case Illegal => Exception
  }

  /** Fetch, decode and execute. A call to the environment returns to the next instruction; what
      the environment does in between is not part of the step. */
  function Step(s: State): (o: Outcome)
    requires s.Ok()
    ensures o.Next? ==> o.state.Ok()
  {
    if s.pc & 3 != 0 then Exception
    else
      var i := LoadWord(s.mem, Num(s.pc));
      DecodedRegs(i);
      Execute(s, Decode(i))
  }
}
