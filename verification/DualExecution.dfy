/**
 * The lockstep loop with the functional core in it (sim/sim_concurrent.cpp). As long as the
 * instructions are plain, the core is the ISA's whatever the replica does, and the verdict of the loop
 * is that of comparing the replica with the ISA; and if the replica makes the stores of the ISA, both
 * cores see its memory. The ring of recent records is that of Lockstep.SimConcurrent.
 */
module DualExecution {
  import opened ByteMemory
  import opened FunctionalCore
  import opened RetirementRecords
  import opened RiscvIsa
  import opened SingleExecution
  import opened WordBytes
  import CoreMemory
  import Lockstep
  import PrivateMemory

  type Replica = nat -> (nat -> Lockstep.Cycle)

  // ---- the ISA as a core

  /** The state before round `n`, as long as instructions complete. */
  ghost function StateAt(s: State, answers: nat -> Answer, n: nat): (t: State)
    requires s.Ok()
    ensures t.Ok()
  {
    if RunIsa(s, answers, n).Next? then RunIsa(s, answers, n).state else s
  }

  /** What a core that is the ISA does in each round. */
  ghost function IsaCycles(s: State, answers: nat -> Answer): nat -> Lockstep.Cycle
    requires s.Ok()
  {
    (i: nat) => CycleOf(StateAt(s, answers, i))
  }

  function CallsOf(answers: nat -> Answer): nat -> Lockstep.Call {
    (i: nat) => answers(i).call
  }

  /** The first `n` rounds of the replica are good: it retires a record that agrees with the ISA's and
      makes the ISA's stores. */
  ghost predicate GoodFor(s: State, answers: nat -> Answer, v: Replica, n: nat, exact: bool)
    requires s.Ok()
  {
    Lockstep.AllGood(IsaCycles(s, answers), v, n, exact)
  }

  /** How the loop ends, with the ISA for the functional core. */
  ghost predicate EndsAsIsa(d: Lockstep.Verdict, s: State, answers: nat -> Answer, v: Replica, enough: int,
      maxInsts: nat)
    requires s.Ok()
  {
    Lockstep.Ended(d, IsaCycles(s, answers), v, CallsOf(answers), enough, maxInsts)
  }

  /** With the ISA for the functional core, none of the first `n` rounds ends the loop. */
  ghost predicate IsaGoesOn(s: State, answers: nat -> Answer, v: Replica, enough: int, maxInsts: nat, n: nat)
    requires s.Ok()
  {
    Lockstep.NotYet(IsaCycles(s, answers), v, CallsOf(answers), enough, maxInsts, n)
  }

  lemma PlainNow(s: State, answers: nat -> Answer, n: nat)
    requires s.Ok() && AllPlain(s, answers, n + 1)
    ensures AllPlain(s, answers, n) && Plain(StateAt(s, answers, n)) && Step(StateAt(s, answers, n)).Next?
    ensures RunIsa(s, answers, n).Next?
    ensures RunIsa(s, answers, n + 1) == StepAnswered(StateAt(s, answers, n), answers(n))
  {
    hide Step, StepAnswered, JumpKept, Decode, Ir;
    assert PlainAt(s, answers, n);
  }

  lemma GoodNow(s: State, answers: nat -> Answer, v: Replica, n: nat, exact: bool)
    requires s.Ok() && GoodFor(s, answers, v, n + 1, exact)
    ensures GoodFor(s, answers, v, n, exact) && Lockstep.GoodRound(CycleOf(StateAt(s, answers, n)), v(n), exact)
  {
    hide Lockstep.GoodRound, StateAt, CycleOf;
    assert Lockstep.GoodAt(IsaCycles(s, answers), v, n, exact);
  }

  // ---- one round

  /** What system calls write, seen as bytes. */
  lemma {:induction false} CallsPoke(flat: CoreMemory.Flat, writes: seq<(nat, seq<bv8>)>, n: nat)
    requires flat != [] && n <= |writes|
    ensures BytesIn(Lockstep.CallDone(flat, writes, n)) == MemAnswered(BytesIn(flat), writes, n)
  {
    hide BytesIn, PrivateMemory.Poked;
    if n > 0 {
      CallsPoke(flat, writes, n - 1);
      PrivateMemory.AlonePoked(Lockstep.CallDone(flat, writes, n - 1), writes[n - 1].0, writes[n - 1].1);
    }
  }

  /** Both cores see the same memory. */
  ghost predicate Alike(core: Core, exact: bool)
    reads core`memory, if core.memory != null then {core.memory, core.memory.mem} else {}
  {
    core.memory != null && core.memory.Valid() && Lockstep.InStep(core.memory, core.memory.View(0), exact)
  }

  /** emulate, for both cores. */
  method EmulateBoth(core: Core, a: Answer, ghost exact: bool)
    requires core.Valid() && core.memory != null && core.memory.numReps == 1
    modifies core.memory, core.memory.mem, core.reg
    ensures core.Valid() && core.memory.numReps == 1 && (old(Alike(core, exact)) ==> Alike(core, exact))
    ensures core.Here() == old(core.Here()).(mem := MemAnswered(old(core.Here()).mem, a.call.writes, |a.call.writes|),
                                             x := old(core.Here()).x[REG_A0 := a.a0])
  {
    hide BytesIn, CoreMemory.Memory.View;
    var m := core.memory;
    ghost var flat, writes := m.View(0), a.call.writes;
    CallsPoke(flat, writes, |writes|);
    Lockstep.Emulate(m, a.call, flat, exact);
    core.WriteReg(REG_A0, a.a0);
  }

  /** The functional core's instruction; its store, if it is one, is yet to be served. */
  method DriveOnce(core: Core, ghost t: State) returns (f: Lockstep.Cycle)
    requires core.Valid() && core.Running() && t.Ok()
    modifies core, core.reg
    ensures core.Valid() && core.memory == old(core.memory) && core.halt == old(core.halt)
    ensures core.cntInst == old(core.cntInst) + (if f.ok then 1 else 0) && f.rec == core.instif
    ensures old(core.Here()) == t && Plain(t) ==>
              f.ok && Shows(t, f.rec) && Lockstep.PrimaryFaithful(f) &&
              State(core.pc, core.reg[..], BytesIn(CoreMemory.Served(core.memory.View(0), f.req))) == Step(t).state
  {
    hide BytesIn, CoreMemory.Memory.View, CoreMemory.Memory.Valid, Plain, Step, Decode, CoreMemory.Served, LoadWord,
         Num, Shows, Agrees, Lockstep.PrimaryFaithful;
    ghost var here := core.Here() == t;
    FetchAgrees(core.memory.View(0), Num(core.pc));
    var ok := core.Drive();
    f := Lockstep.Cycle(ok, core.memif.Driven(), core.instif, core.cntInst);
    if here && Plain(t) { DroveAsIsa(t, core.After()); }
  }

  lemma DroveAsIsa(t: State, after: State)
    requires t.Ok() && Plain(t) && (Step(t).Next? ==> Agrees(t, Ir(t), after))
    ensures Step(t).Next? && after == Step(t).state
  {
    hide LoadWord, Num, Decode, JumpKept, Step, Agrees;
    PlainStep(t, after);
  }

  /** One round: the core's instruction, the replica until it retires one, and the comparison. */
  method CompareRound(core: Core, vld: Lockstep.Validator, v: nat -> Lockstep.Cycle, ghost t: State, ghost exact: bool)
    returns (f: Lockstep.Cycle, last: Lockstep.Cycle, idle: nat, same: bool)
    requires core.Valid() && core.Running() && core.memory.numReps == 1 && t.Ok()
    modifies core, core.reg, core.memory, core.memory.mem, vld
    ensures core.Valid() && core.memory == old(core.memory) && core.memory.numReps == 1 && core.halt == old(core.halt)
    ensures core.cntInst == old(core.cntInst) + (if f.ok then 1 else 0) && f.rec == core.instif
    ensures last == Lockstep.LastCycle(v) && idle == Lockstep.Idle(v)
    ensures old(core.Here()) == t && Plain(t) ==>
              f.ok && f.rec.ir == Ir(t) && (same <==> Lockstep.Agree(CycleOf(t).rec, last.rec)) &&
              core.Here() == Step(t).state
    ensures old(core.Here()) == t && Plain(t) && old(Alike(core, exact)) && Lockstep.GoodRound(CycleOf(t), v, exact) ==>
              Alike(core, exact)
  {
    hide BytesIn, CoreMemory.Memory.View, Plain, Step, CoreMemory.Served, Lockstep.Agree, Lockstep.GoodRound, Shows,
         CycleOf, Lockstep.Idle, Lockstep.LastCycle, Lockstep.PrimaryFaithful;
    ghost var flat, here := core.memory.View(0), core.Here() == t;
    f := DriveOnce(core, t);
    last, idle := Lockstep.Round(core.memory, f, v, flat, exact);
    same := vld.Validate(f.rec, last.rec);
    if here && Plain(t) { SameAsIsa(t, f, v, last.rec, exact); }
  }

  /** The core's record and store are as good as the ISA's. */
  lemma SameAsIsa(t: State, f: Lockstep.Cycle, v: nat -> Lockstep.Cycle, r: Lockstep.Record, exact: bool)
    requires t.Ok() && Plain(t) && Shows(t, f.rec) && Lockstep.PrimaryFaithful(f)
    ensures f.rec.ir == Ir(t) && Step(t).Next?
    ensures Lockstep.Agree(f.rec, r) <==> Lockstep.Agree(CycleOf(t).rec, r)
    ensures Lockstep.GoodRound(f, v, exact) <==> Lockstep.GoodRound(CycleOf(t), v, exact)
  {
    hide Step, Decode, JumpKept, CycleOf, Produced, Lockstep.Agree, Lockstep.GoodRound, Lockstep.PrimaryFaithful;
    GoodAlike(t, f, v, exact);
    CycleShows(t);
    ShowsAlike(t, f.rec, CycleOf(t).rec);
    AlikeAgree(f.rec, CycleOf(t).rec, r);
  }

  // ---- the loop

  /** After `n` rounds the core is in the state of the ISA if the instructions were plain, and both
      cores see the same memory if moreover the rounds were good and they did so at the beginning. */
  ghost predicate OnCourse(core: Core, s: State, answers: nat -> Answer, v: Replica, n: nat, alike: bool, exact: bool)
    reads core`memory, core`pc, core.reg, if core.memory != null then {core.memory, core.memory.mem} else {}
  {
    core.Valid() && core.memory != null && core.memory.numReps == 1 && s.Ok() &&
    (AllPlain(s, answers, n) ==>
       RunIsa(s, answers, n) == Next(core.Here()) &&
       (alike && GoodFor(s, answers, v, n, exact) ==> Alike(core, exact)))
  }

  lemma AgreesNow(s: State, answers: nat -> Answer, v: Replica, n: nat)
    requires s.Ok()
    ensures Lockstep.AgreeAt(IsaCycles(s, answers), v, n) <==>
            Lockstep.Agree(CycleOf(StateAt(s, answers, n)).rec, Lockstep.LastCycle(v(n)).rec)
    ensures Lockstep.CallStops(IsaCycles(s, answers), CallsOf(answers), n) <==>
            Ir(StateAt(s, answers, n)) == Lockstep.ECALL && answers(n).call.stops
    ensures IsaCycles(s, answers)(n).ok
  {
    hide StateAt, Lockstep.Agree, Produced, Decode, Lockstep.LastCycle;
  }

  lemma GoodAgrees(s: State, answers: nat -> Answer, v: Replica, n: nat, exact: bool)
    requires s.Ok() && GoodFor(s, answers, v, n + 1, exact)
    ensures Lockstep.AgreeAt(IsaCycles(s, answers), v, n)
  {
    hide Lockstep.Agree, Lockstep.ReplicaFaithful, StateAt, CycleOf;
    AgreesNow(s, answers, v, n);
    GoodNow(s, answers, v, n, exact);
  }

  /** The loop body. A system call is not carried out when the records disagree. */
  method NextRound(core: Core, vld: Lockstep.Validator, v: Replica, answers: nat -> Answer, ghost s: State, n: nat,
      ghost alike: bool, ghost exact: bool)
    returns (f: Lockstep.Cycle, last: Lockstep.Cycle, idle: nat, same: bool)
    requires OnCourse(core, s, answers, v, n, alike, exact) && core.Running()
    modifies core, core.reg, core.memory, core.memory.mem, vld
    ensures core.Valid() && core.memory == old(core.memory) && core.halt == old(core.halt)
    ensures core.cntInst == old(core.cntInst) + if f.ok then 1 else 0
    ensures last == Lockstep.LastCycle(v(n)) && idle == Lockstep.Idle(v(n))
    ensures AllPlain(s, answers, n + 1) ==>
              f.ok && f.rec.ir == Ir(StateAt(s, answers, n)) &&
              (same <==> Lockstep.AgreeAt(IsaCycles(s, answers), v, n)) &&
              (!same ==> Step(StateAt(s, answers, n)) == Next(core.Here()))
    ensures same ==> OnCourse(core, s, answers, v, n + 1, alike, exact)
  {
    hide Plain, Step, Core.Here, AllPlain, RunIsa, Alike, GoodFor, Lockstep.GoodRound, MemAnswered, Lockstep.AgreeAt,
         CycleOf, Lockstep.Agree, Lockstep.LastCycle, Lockstep.Idle;
    ghost var t := StateAt(s, answers, n);
    ghost var plain, good := AllPlain(s, answers, n + 1), GoodFor(s, answers, v, n + 1, exact);
    if plain { PlainNow(s, answers, n); }
    if good { GoodNow(s, answers, v, n, exact); }
    AgreesNow(s, answers, v, n);
    f, last, idle, same := CompareRound(core, vld, v(n), t, exact);
    if same && core.instif.ir == Lockstep.ECALL { EmulateBoth(core, answers(n), exact); }
  }

  /** As long as instructions are plain, the rounds so far are none that end the loop. */
  ghost predicate GoesOnIfPlain(s: State, answers: nat -> Answer, v: Replica, enough: int, maxInsts: nat, n: nat)
    requires s.Ok()
  {
    forall k: nat :: k <= n && AllPlain(s, answers, k) ==> IsaGoesOn(s, answers, v, enough, maxInsts, k)
  }

  /** After the rounds that `d` counts the loop goes on, or has ended as it ends for the ISA. */
  ghost predicate EndsRight(d: Lockstep.Verdict, s: State, answers: nat -> Answer, v: Replica, enough: int,
      maxInsts: nat)
    requires s.Ok()
  {
    if d.fHalt || d.vHalt then
      d.rounds > 0 && GoesOnIfPlain(s, answers, v, enough, maxInsts, d.rounds - 1) &&
      (AllPlain(s, answers, d.rounds) ==> EndsAsIsa(d, s, answers, v, enough, maxInsts))
    else GoesOnIfPlain(s, answers, v, enough, maxInsts, d.rounds)
  }

  /** The state that the loop has come to: a system call is not carried out if the records disagree. */
  ghost predicate LeftBy(s: State, answers: nat -> Answer, n: nat, mismatch: bool, t: State)
    requires s.Ok()
  {
    if mismatch then n > 0 && Step(StateAt(s, answers, n - 1)) == Next(t) else RunIsa(s, answers, n) == Next(t)
  }

  /** After `n` rounds, the last of which may have shown a mismatch. */
  ghost predicate Standing(core: Core, s: State, answers: nat -> Answer, v: Replica, n: nat, mismatch: bool,
      alike: bool, exact: bool)
    requires s.Ok()
    reads core`memory, core`pc, core.reg, if core.memory != null then {core.memory, core.memory.mem} else {}
  {
    if mismatch then
      core.Valid() && core.memory != null &&
      (AllPlain(s, answers, n) ==> LeftBy(s, answers, n, true, core.Here()))
    else OnCourse(core, s, answers, v, n, alike, exact)
  }

  /** One time through the loop: a round, and who halts. */
  method DualTurn(core: Core, vld: Lockstep.Validator, v: Replica, answers: nat -> Answer, maxInsts: nat,
      ghost s: State, n: nat, ghost start: int, ghost alike: bool, ghost exact: bool)
    returns (idle: nat, same: bool, vHalt: bool)
    requires s.Ok() && OnCourse(core, s, answers, v, n, alike, exact) && core.Running() && !core.halt &&
             core.memory != null
    requires GoesOnIfPlain(s, answers, v, maxInsts - start, maxInsts, n)
    requires AllPlain(s, answers, n) ==> core.cntInst == start + n
    modifies core, core.reg, core.memory, core.memory.mem, vld
    ensures core.Valid() && core.memory == old(core.memory) && idle == Lockstep.Idle(v(n))
    ensures core.cntInst <= old(core.cntInst) + 1 && (!core.halt ==> core.cntInst == old(core.cntInst) + 1 < maxInsts)
    ensures AllPlain(s, answers, n + 1) ==> core.cntInst == start + n + 1
    ensures EndsRight(Lockstep.Verdict(n + 1, core.halt, vHalt, !same, []), s, answers, v, maxInsts - start, maxInsts)
    ensures Standing(core, s, answers, v, n + 1, !same, alike, exact) && (!same ==> core.halt && vHalt)
  {
    hide *;
    ghost var plain := AllPlain(s, answers, n + 1);
    if plain { PlainNow(s, answers, n); }
    var f, last;
    f, last, idle, same := NextRound(core, vld, v, answers, s, n, alike, exact);
    ghost var t := core.Here();
    var stops := f.rec.ir == Lockstep.ECALL && answers(n).call.stops;
    if core.cntInst >= maxInsts || !f.ok { core.halt := true; }
    vHalt := last.cnt >= maxInsts || !last.ok || !last.rec.valid;
    if !same || stops { core.halt, vHalt := true, true; }
    assert core.Here() == t;
    TurnEnds(s, answers, v, n, maxInsts - start, maxInsts, last, same, stops, core.halt, vHalt);
    StandsNow(core, s, answers, v, n, same, alike, exact);
  }

  lemma StandsNow(core: Core, s: State, answers: nat -> Answer, v: Replica, n: nat, same: bool, alike: bool,
      exact: bool)
    requires s.Ok() && core.Valid() && core.memory != null
    requires same ==> OnCourse(core, s, answers, v, n + 1, alike, exact)
    requires !same && AllPlain(s, answers, n + 1) ==> Step(StateAt(s, answers, n)) == Next(core.Here())
    ensures Standing(core, s, answers, v, n + 1, !same, alike, exact)
  {
    hide AllPlain, OnCourse, Core.Here, StateAt, Step;
  }

  /** Who halts after a round, if the core did what the ISA does. */
  lemma TurnEnds(s: State, answers: nat -> Answer, v: Replica, n: nat, enough: int, maxInsts: nat,
      last: Lockstep.Cycle, same: bool, stops: bool, fHalt: bool, vHalt: bool)
    requires s.Ok() && GoesOnIfPlain(s, answers, v, enough, maxInsts, n)
    requires AllPlain(s, answers, n + 1) ==>
               last == Lockstep.LastCycle(v(n)) && (same <==> Lockstep.AgreeAt(IsaCycles(s, answers), v, n)) &&
               (stops <==> Ir(StateAt(s, answers, n)) == Lockstep.ECALL && answers(n).call.stops) &&
               (fHalt <==> n + 1 >= enough || !same || stops) &&
               (vHalt <==> last.cnt >= maxInsts || !last.ok || !last.rec.valid || !same || stops)
    ensures EndsRight(Lockstep.Verdict(n + 1, fHalt, vHalt, !same, []), s, answers, v, enough, maxInsts)
  {
    hide StateAt, AllPlain, IsaCycles, Lockstep.AgreeAt, Lockstep.LastCycle, Lockstep.NotYet, Lockstep.Ended,
         Lockstep.CallStops;
    if AllPlain(s, answers, n + 1) {
      PlainNow(s, answers, n);
      AgreesNow(s, answers, v, n);
      assert IsaGoesOn(s, answers, v, enough, maxInsts, n);
      Lockstep.EndedOrNot(Lockstep.Verdict(n + 1, fHalt, vHalt, !same, []), IsaCycles(s, answers), v,
          CallsOf(answers), enough, maxInsts, n);
    }
  }

  /** sim_concurrent. If the instructions are plain, the loop ends when, and with the verdict with
      which, comparing the replica with the ISA ends it, and the core is in the state of the ISA,
      whatever the replica does. If moreover the rounds are good, both cores see its memory. */
  method SimDual(core: Core, v: Replica, answers: nat -> Answer, maxInsts: nat, ghost exact: bool)
    returns (rounds: nat, mismatch: bool, vHalt: bool, cycleCount: nat)
    requires core.Valid() && core.Running() && core.memory.numReps == 1
    modifies core, core.reg, core.memory, core.memory.mem
    ensures core.Valid() && core.memory == old(core.memory) && rounds > 0 && cycleCount == Lockstep.IdleSum(v, rounds)
    ensures AllPlain(old(core.Here()), answers, rounds) ==>
              EndsAsIsa(Lockstep.Verdict(rounds, core.halt, vHalt, mismatch, []), old(core.Here()), answers, v,
                  maxInsts - old(core.cntInst), maxInsts) &&
              LeftBy(old(core.Here()), answers, rounds, mismatch, core.Here())
    ensures GoesOnIfPlain(old(core.Here()), answers, v, maxInsts - old(core.cntInst), maxInsts, rounds - 1)
    ensures AllPlain(old(core.Here()), answers, rounds) ==>
              forall k: nat ::
                k < rounds ==>
                  (ShowsValues(StateAt(old(core.Here()), answers, k), Lockstep.LastCycle(v(k)).rec) <==>
                   !(mismatch && k == rounds - 1))
    ensures AllPlain(old(core.Here()), answers, rounds) && GoodFor(old(core.Here()), answers, v, rounds, exact) ==>
              !mismatch && (old(Alike(core, exact)) ==> Alike(core, exact))
    ensures core.cntInst <= if maxInsts <= old(core.cntInst) then old(core.cntInst) + 1 else maxInsts
  {
    hide AllPlain, GoodFor, Alike, EndsAsIsa, LeftBy, GoesOnIfPlain, Standing, EndsRight, Lockstep.IdleSum;
    ghost var s, start, alike := core.Here(), core.cntInst, Alike(core, exact);
    Begins(core, s, answers, v, maxInsts - start, maxInsts, exact);
    rounds, mismatch, vHalt, cycleCount := DualLoop(core, v, answers, maxInsts, s, alike, exact);
    Concluded(core, s, answers, v, Lockstep.Verdict(rounds, core.halt, vHalt, mismatch, []), maxInsts - start, maxInsts,
        alike, exact);
    if AllPlain(s, answers, rounds) {
      ValuesShown(s, answers, v, Lockstep.Verdict(rounds, core.halt, vHalt, mismatch, []), maxInsts - start, maxInsts);
    }
  }

  /** Until the loop ends each record of the replica shows the ISA's values, and the last does not if and only if
      there is a mismatch. */
  lemma ValuesShown(s: State, answers: nat -> Answer, v: Replica, d: Lockstep.Verdict, enough: int, maxInsts: nat)
    requires s.Ok() && AllPlain(s, answers, d.rounds) && EndsAsIsa(d, s, answers, v, enough, maxInsts)
    ensures forall k: nat ::
              k < d.rounds ==>
                (ShowsValues(StateAt(s, answers, k), Lockstep.LastCycle(v(k)).rec) <==>
                 !(d.mismatch && k == d.rounds - 1))
  {
    hide Plain, RunIsa, Step, ShowsValues, CycleOf, Lockstep.Agree, Lockstep.LastCycle, Lockstep.PrimaryHalts,
         Lockstep.ReplicaHalts, Lockstep.CallStops;
    var f := IsaCycles(s, answers);
    forall k: nat | k < d.rounds
      ensures ShowsValues(StateAt(s, answers, k), Lockstep.LastCycle(v(k)).rec) <==>
              !(d.mismatch && k == d.rounds - 1)
    {
      assert PlainAt(s, answers, k);
      PlainSteps(s, answers, k);
      CycleShows(StateAt(s, answers, k));
      AgreesExactly(StateAt(s, answers, k), f(k).rec, Lockstep.LastCycle(v(k)).rec);
      if k < d.rounds - 1 {
        assert !Lockstep.EndsAt(f, v, CallsOf(answers), enough, maxInsts, k);
      }
      assert Lockstep.AgreeAt(f, v, k) <==> ShowsValues(StateAt(s, answers, k), Lockstep.LastCycle(v(k)).rec);
    }
  }

  lemma PlainSteps(s: State, answers: nat -> Answer, k: nat)
    requires s.Ok() && PlainAt(s, answers, k)
    ensures Step(StateAt(s, answers, k)).Next?
  {
    hide Step, RunIsa;
  }

  /** The loop proper. */
  method DualLoop(core: Core, v: Replica, answers: nat -> Answer, maxInsts: nat, ghost s: State, ghost alike: bool,
      ghost exact: bool)
    returns (rounds: nat, mismatch: bool, vHalt: bool, cycleCount: nat)
    requires s.Ok() && core.Valid() && core.Running() && core.memory != null && !core.halt && AllPlain(s, answers, 0)
    requires Standing(core, s, answers, v, 0, false, alike, exact)
    requires EndsRight(Lockstep.Verdict(0, false, false, false, []), s, answers, v, maxInsts - core.cntInst, maxInsts)
    modifies core, core.reg, core.memory, core.memory.mem
    ensures core.Valid() && core.memory == old(core.memory) && rounds > 0 && cycleCount == Lockstep.IdleSum(v, rounds)
    ensures core.halt || vHalt
    ensures Standing(core, s, answers, v, rounds, mismatch, alike, exact)
    ensures EndsRight(Lockstep.Verdict(rounds, core.halt, vHalt, mismatch, []), s, answers, v,
              maxInsts - old(core.cntInst), maxInsts)
    ensures core.cntInst <= if maxInsts <= old(core.cntInst) then old(core.cntInst) + 1 else maxInsts
  {
    hide *;
    ghost var start := core.cntInst;
    var vld := new Lockstep.Validator();
    rounds, mismatch, vHalt, cycleCount := 0, false, false, 0;
    NothingIdle(v);
    while !core.halt && !vHalt
      invariant core.Valid() && core.memory == old(core.memory) && cycleCount == Lockstep.IdleSum(v, rounds)
      invariant AllPlain(s, answers, rounds) ==> core.cntInst == start + rounds
      invariant core.cntInst <= if maxInsts <= start then start + 1 else maxInsts
      invariant Standing(core, s, answers, v, rounds, mismatch, alike, exact)
      invariant EndsRight(Lockstep.Verdict(rounds, core.halt, vHalt, mismatch, []), s, answers, v, maxInsts - start,
                  maxInsts)
      invariant if core.halt || vHalt then rounds > 0
                else !mismatch && ((rounds == 0 && core.cntInst == start) || core.cntInst < maxInsts)
      decreases !core.halt, maxInsts - core.cntInst
    {
      var idle, same;
      StandingOn(core, s, answers, v, rounds, maxInsts - start, maxInsts, vHalt, alike, exact);
      MoreIdle(v, rounds);
      idle, same, vHalt := DualTurn(core, vld, v, answers, maxInsts, s, rounds, start, alike, exact);
      cycleCount, mismatch, rounds := cycleCount + idle, !same, rounds + 1;
    }
  }

  lemma Begins(core: Core, s: State, answers: nat -> Answer, v: Replica, enough: int, maxInsts: nat, exact: bool)
    requires core.Valid() && core.memory != null && s == core.Here() && core.memory.numReps == 1
    ensures Standing(core, s, answers, v, 0, false, Alike(core, exact), exact)
    ensures EndsRight(Lockstep.Verdict(0, false, false, false, []), s, answers, v, enough, maxInsts)
    ensures AllPlain(s, answers, 0)
  {
  }

  lemma NothingIdle(v: Replica)
    ensures Lockstep.IdleSum(v, 0) == 0
  {
  }

  lemma MoreIdle(v: Replica, n: nat)
    ensures Lockstep.IdleSum(v, n + 1) == Lockstep.IdleSum(v, n) + Lockstep.Idle(v(n))
  {
    hide Lockstep.Idle;
  }

  lemma StandingOn(core: Core, s: State, answers: nat -> Answer, v: Replica, n: nat, enough: int, maxInsts: nat,
      vHalt: bool, alike: bool, exact: bool)
    requires s.Ok() && Standing(core, s, answers, v, n, false, alike, exact) && !core.halt && !vHalt
    requires EndsRight(Lockstep.Verdict(n, core.halt, vHalt, false, []), s, answers, v, enough, maxInsts)
    ensures OnCourse(core, s, answers, v, n, alike, exact) && core.memory != null && core.Running()
    ensures GoesOnIfPlain(s, answers, v, enough, maxInsts, n)
  {
    hide GoesOnIfPlain, AllPlain, Core.Here, Alike, GoodFor;
  }

  lemma Concluded(core: Core, s: State, answers: nat -> Answer, v: Replica, d: Lockstep.Verdict, enough: int,
      maxInsts: nat, alike: bool, exact: bool)
    requires s.Ok() && d.rounds > 0 && (d.fHalt || d.vHalt) && core.Valid() && core.memory != null
    requires EndsRight(d, s, answers, v, enough, maxInsts)
    requires Standing(core, s, answers, v, d.rounds, d.mismatch, alike, exact)
    ensures GoesOnIfPlain(s, answers, v, enough, maxInsts, d.rounds - 1)
    ensures AllPlain(s, answers, d.rounds) ==>
              EndsAsIsa(d, s, answers, v, enough, maxInsts) && LeftBy(s, answers, d.rounds, d.mismatch, core.Here())
    ensures AllPlain(s, answers, d.rounds) && GoodFor(s, answers, v, d.rounds, exact) ==>
              !d.mismatch && (alike ==> Alike(core, exact))
  {
    hide AllPlain, Alike, StateAt, Step, RunIsa, Core.Here, GoesOnIfPlain, Lockstep.AgreeAt, Lockstep.AllGood,
         Lockstep.EndsFirst, Lockstep.PrimaryHalts, Lockstep.ReplicaHalts, Lockstep.CallStops;
    if GoodFor(s, answers, v, d.rounds, exact) { GoodAgrees(s, answers, v, d.rounds - 1, exact); }
  }
}
