/**
 * The functional core run by itself (sim/sim_single.cpp): as long as the ISA lets the program go on
 * and its jumps are kept, the run is a run of RV32I with system calls between instructions.
 */
module SingleExecution {
  import opened ByteMemory
  import opened FunctionalCore
  import opened RetirementRecords
  import opened RiscvIsa
  import opened WordBytes
  import CoreMemory
  import Lockstep
  import PrivateMemory

  const REG_A0: nat := 10

  /** What a system call does: ranges it writes, the value it leaves in A0, and whether it ends the
      run. A call that leaves A0 alone leaves the value it finds. */
  datatype Answer = Answer(call: Lockstep.Call, a0: Word)

  function MemAnswered(mem: Bytes, writes: seq<(nat, seq<bv8>)>, n: nat): (m: Bytes)
    requires n <= |writes|
    ensures |m| == |mem|
  {
    if n == 0 then mem else PrivateMemory.Poked(MemAnswered(mem, writes, n - 1), writes[n - 1].0, writes[n - 1].1)
  }

  /** A completed instruction, and the system call if it was one. */
  function Answered(o: Outcome, ir: Word, a: Answer): (r: Outcome)
    requires o.Next? ==> o.state.Ok()
    ensures r.Next? ==> o.Next? && r.state.Ok()
  {
    if o.Next? && ir == Lockstep.ECALL then
      Next(o.state.(mem := MemAnswered(o.state.mem, a.call.writes, |a.call.writes|), x := o.state.x[REG_A0 := a.a0]))
    else o
  }

  function StepAnswered(s: State, a: Answer): (r: Outcome)
    requires s.Ok()
    ensures r.Next? ==> r.state.Ok()
  {
    Answered(Step(s), Ir(s), a)
  }

  /** `n` instructions of the ISA. */
  function RunIsa(s: State, answers: nat -> Answer, n: nat): (r: Outcome)
    requires s.Ok()
    ensures r.Next? ==> r.state.Ok()
  {
    if n == 0 then Next(s)
    else
      match RunIsa(s, answers, n - 1)
      case Exception => Exception
      case Next(t) => StepAnswered(t, answers(n - 1))
  }

  /** The instruction completes, and if it is a jump it is one that the core keeps. */
  predicate Plain(s: State)
    requires s.Ok()
  {
    ReadableRegs(s);
    Step(s).Next? && JumpKept(s, Decode(Ir(s)))
  }

  lemma ReadableRegs(s: State)
    requires s.Ok()
    ensures Regs(Decode(Ir(s)))
  {
    DecodedRegs(Ir(s));
  }

  predicate PlainAt(s: State, answers: nat -> Answer, k: nat)
    requires s.Ok()
  {
    RunIsa(s, answers, k).Next? && Plain(RunIsa(s, answers, k).state)
  }

  /** The first `n` instructions are plain. */
  ghost predicate AllPlain(s: State, answers: nat -> Answer, n: nat)
    requires s.Ok()
  {
    forall k: nat :: k < n ==> PlainAt(s, answers, k)
  }

  /** A range written for all, as the primary sees it. */
  lemma PrimaryPoked(m: CoreMemory.Memory, before: seq<CoreMemory.Flat>, addr: nat, data: seq<bv8>)
    requires m.Valid() && PrivateMemory.SameSize(before) && m.Views() == CoreMemory.Written(before, addr, data)
    ensures |before| > 0 && BytesIn(m.View(0)) == PrivateMemory.Poked(BytesIn(before[0]), addr, data)
  {
    hide BytesIn, CoreMemory.Written, CoreMemory.Memory.View;
    PrivateMemory.RangeIsPrivateExactly(before, addr, data, 0);
    PrivateMemory.AlonePoked(before[0], addr, data);
    assert m.View(0) == m.Views()[0];
  }

  /** emulate. */
  method Emulate(core: Core, a: Answer)
    requires core.Valid() && core.memory != null && core.memory.mem != core.reg
    modifies core.memory, core.memory.mem, core.reg
    ensures core.Valid() &&
            core.Here() == old(core.Here()).(mem := MemAnswered(old(core.Here()).mem, a.call.writes, |a.call.writes|),
                                                          x := old(core.Here()).x[REG_A0 := a.a0])
  {
    hide BytesIn, CoreMemory.Memory.View, PrivateMemory.Poked, CoreMemory.Written;
    var m := core.memory;
    ghost var s := core.Here();
    for i := 0 to |a.call.writes|
      invariant core.Valid() && core.Here() == s.(mem := MemAnswered(s.mem, a.call.writes, i))
    {
      ghost var before := m.Views();
      PrivateMemory.Sizes(m);
      assert before[0] == m.View(0);
      m.Write(a.call.writes[i].0, a.call.writes[i].1);
      PrimaryPoked(m, before, a.call.writes[i].0, a.call.writes[i].1);
    }
    core.WriteReg(REG_A0, a.a0);
  }

  /** One cycle: the core's instruction, its request served, and the system call if it asks for one. */
  method Round(core: Core, a: Answer, rdata: PrivateMemory.Pair)
      returns (ok: bool, rdata': PrivateMemory.Pair, called: bool)
    requires core.Valid() && core.Running()
    modifies core, core.reg, core.memory, core.memory.mem
    ensures core.Valid() && core.memory == old(core.memory) && core.halt == old(core.halt)
    ensures core.cntInst == old(core.cntInst) + if ok then 1 else 0
    ensures Plain(old(core.Here())) ==>
              ok && Next(core.Here()) == StepAnswered(old(core.Here()), a) &&
              (called <==> Ir(old(core.Here())) == Lockstep.ECALL)
    ensures called ==> ok
  {
    hide BytesIn, CoreMemory.Memory.View, Plain, Step, Decode, MemAnswered, CoreMemory.Served, LoadWord, Num;
    ghost var s, ir := core.Here(), core.WordHere();
    FetchAgrees(core.memory.View(0), Num(core.pc));
    ok := core.Drive();
    ghost var t := core.After();
    rdata' := core.memory.Update(core.memif.Driven(), rdata);
    assert core.memory.View(0) == core.memory.Views()[0];
    assert core.Here() == t;
    if Plain(s) { PlainStep(s, t); }
    called := core.instif.valid && core.instif.ir == Lockstep.ECALL;
    if called { Emulate(core, a); }
  }

  /** Of a plain step the core agrees on everything. */
  lemma PlainStep(s: State, t: State)
    requires s.Ok() && Plain(s) && (Step(s).Next? ==> Agrees(s, Ir(s), t))
    ensures Step(s) == Next(t)
  {
    hide LoadWord, Num, Decode, JumpKept, Step;
    ReadableRegs(s);
  }

  /** After `n` rounds, if they were plain, the core is where the ISA says. */
  ghost predicate OnCourse(core: Core, s: State, answers: nat -> Answer, n: nat)
    requires core.Valid() && core.memory != null && s.Ok()
    reads core`memory, core`pc, core.reg, core.memory, core.memory.mem
  {
    AllPlain(s, answers, n) ==> RunIsa(s, answers, n) == Next(core.Here())
  }

  /** Instruction `k` of the run is a system call that ends it. */
  predicate CallEnds(s: State, answers: nat -> Answer, k: nat)
    requires s.Ok()
  {
    RunIsa(s, answers, k).Next? && Ir(RunIsa(s, answers, k).state) == Lockstep.ECALL && answers(k).call.stops
  }

  /** So does the last instruction allowed. */
  predicate EndsRun(s: State, answers: nat -> Answer, enough: int, k: nat)
    requires s.Ok()
  {
    CallEnds(s, answers, k) || k + 1 >= enough
  }

  /** None of the first `n` instructions, as far as they are plain, ends the run. */
  ghost predicate NoneEnds(s: State, answers: nat -> Answer, enough: int, n: nat)
    requires s.Ok()
  {
    forall k: nat :: k < n && AllPlain(s, answers, k + 1) ==> !EndsRun(s, answers, enough, k)
  }

  lemma OneMoreGoesOn(s: State, answers: nat -> Answer, enough: int, n: nat)
    requires s.Ok() && NoneEnds(s, answers, enough, n) &&
             (AllPlain(s, answers, n + 1) ==> !EndsRun(s, answers, enough, n))
    ensures NoneEnds(s, answers, enough, n + 1)
  {
  }

  method NextRound(core: Core, answers: nat -> Answer, n: nat, rdata: PrivateMemory.Pair, ghost s: State)
    returns (ok: bool, rdata': PrivateMemory.Pair, called: bool)
    requires core.Valid() && core.Running() && s.Ok() && OnCourse(core, s, answers, n)
    modifies core, core.reg, core.memory, core.memory.mem
    ensures core.Valid() && core.memory == old(core.memory) && core.halt == old(core.halt)
    ensures core.cntInst == old(core.cntInst) + if ok then 1 else 0
    ensures OnCourse(core, s, answers, n + 1) && (AllPlain(s, answers, n + 1) ==> ok) && (called ==> ok)
    ensures AllPlain(s, answers, n + 1) ==> (called && answers(n).call.stops <==> CallEnds(s, answers, n))
  {
    hide StepAnswered, Plain, Core.Here;
    if AllPlain(s, answers, n + 1) {
      assert AllPlain(s, answers, n) && PlainAt(s, answers, n);
    }
    ok, rdata', called := Round(core, answers(n), rdata);
  }

  /** sim_single: run until a system call stops it, an instruction is unknown, or enough have been
      executed. As long as the instructions are plain, the registers, the memory and the program
      counter are those of the ISA, and the run ends with the first instruction that is a system call
      that stops it or the last allowed. */
  method SimSingle(core: Core, answers: nat -> Answer, maxInsts: nat) returns (cycles: nat)
    requires core.Valid() && core.Running()
    modifies core, core.reg, core.memory, core.memory.mem
    ensures core.Valid() && core.halt && core.memory == old(core.memory) && 0 < cycles
    ensures AllPlain(old(core.Here()), answers, cycles) ==>
              RunIsa(old(core.Here()), answers, cycles) == Next(core.Here())
    ensures AllPlain(old(core.Here()), answers, cycles) ==>
              core.cntInst == old(core.cntInst) + cycles &&
              EndsRun(old(core.Here()), answers, maxInsts - old(core.cntInst), cycles - 1)
    ensures NoneEnds(old(core.Here()), answers, maxInsts - old(core.cntInst), cycles - 1)
    ensures core.cntInst <= if maxInsts <= old(core.cntInst) then old(core.cntInst) + 1 else maxInsts
  {
    hide AllPlain, RunIsa, Core.Here, CallEnds, NoneEnds;
    ghost var s, start, enough := core.Here(), core.cntInst, maxInsts - core.cntInst;
    cycles := 0;
    Starts(core, s, answers);
    var rdata := (0, 0);
    while !core.halt
      invariant core.Valid() && core.memory == old(core.memory) && OnCourse(core, s, answers, cycles)
      invariant AllPlain(s, answers, cycles) ==> core.cntInst == start + cycles
      invariant core.cntInst <= if maxInsts <= start then start + 1 else maxInsts
      invariant !core.halt ==> (cycles == 0 && core.cntInst == start) || core.cntInst < maxInsts
      invariant core.halt ==> cycles > 0 && (AllPlain(s, answers, cycles) ==> EndsRun(s, answers, enough, cycles - 1))
      invariant NoneEnds(s, answers, enough, if core.halt then cycles - 1 else cycles)
      decreases !core.halt, maxInsts - core.cntInst
    {
      var ok, called;
      ok, rdata, called := NextRound(core, answers, cycles, rdata, s);
      FewerPlain(s, answers, cycles);
      if called && answers(cycles).call.stops { core.halt := true; }
      if core.cntInst >= maxInsts || !ok { core.halt := true; }
      if !core.halt { OneMoreGoesOn(s, answers, enough, cycles); }
      cycles := cycles + 1;
    }
  }

  lemma Starts(core: Core, s: State, answers: nat -> Answer)
    requires core.Valid() && core.memory != null && s == core.Here()
    ensures OnCourse(core, s, answers, 0) && forall enough :: NoneEnds(s, answers, enough, 0)
  {
  }

  lemma FewerPlain(s: State, answers: nat -> Answer, n: nat)
    requires s.Ok()
    ensures AllPlain(s, answers, n + 1) ==> AllPlain(s, answers, n)
  {
  }
}
