/**
 * The lockstep loop (sim/sim_concurrent.cpp): in each round the functional core executes one
 * instruction and the replica runs until it retires one; the two retirement records are
 * compared. The cores are arbitrary sources of memory requests and retirement records.
 */
module Lockstep {
  import Bits
  import opened CoreMemory
  import opened WordBytes

  const VCORE_TIMEOUT: nat := 1000
  const ECALL: Word := 0x00000073

  // ---- the validator

  /** What the log attributes of an instruction say about it (sim/riscv.cpp). */
  datatype Class = Load | Store | Register | Other

  function ClassOf(ir: Word): Class {
    var op := (ir >> 2) & 0x1f;
    var funct3 := (ir >> 12) & 0x7;
    if ir & 0x3 != 0x3 then Other
    else if op == 0x00 then (if funct3 == 0 || funct3 == 1 || funct3 == 2 || funct3 == 4 || funct3 == 5 then Load
      else Register)
    else if op == 0x08 then (if funct3 == 0 || funct3 == 1 || funct3 == 2 then Store else Other)
    else if op == 0x0d || op == 0x05 || op == 0x1b || op == 0x19 || op == 0x04 || op == 0x0c then Register
    else if op == 0x1c then (if funct3 == 0 || funct3 == 4 then Other else Register)
    else Other
  }

  /** A retirement record (CoreInstructionIF). */
  datatype Record = Record(valid: bool, pc: Word, ir: Word, rd: nat, result: Word, dAddr: Word, dBaddr: Word,
      dWdata: Word, dWmask: bv4)

  /** The byte address of a load: its word address and the byte within the word. */
  function LoadAddress(r: Record): Word {
    ByteAddress(r.dAddr, r.dBaddr)
  }

  function ByteAddress(addr: Word, baddr: Word): Word {
    (addr & !0x3) | baddr
  }

  function MaskedData(r: Record): Word {
    Masked(r.dWdata, r.dWmask)
  }

  function Masked(data: Word, mask: bv4): Word {
    data & ExpandWmask(mask)
  }

  predicate AgreeAs(c: Class, f: Record, v: Record) {
    match c
    case Load => LoadAddress(f) == LoadAddress(v)
    case Store => f.dAddr == v.dAddr && MaskedData(f) == MaskedData(v)
    case Register => f.result == v.result
    case Other => true
  }

  /** The records agree as far as the validator looks: not at the masks of a store, nor at the
      value a load delivered. */
  predicate Agree(f: Record, v: Record) {
    f.pc == v.pc && f.ir == v.ir && AgreeAs(ClassOf(f.ir), f, v)
  }

  class Validator {
    var addressMis: bool
    var writeDataMis: bool
    var faddr: Word
    var vaddr: Word
    var fdata: Word
    var vdata: Word

    /** What the report of a mismatch prints: nothing is left of an earlier round. */
    predicate Shows(fa: Word, va: Word, fd: Word, vd: Word)
      reads this
    {
      faddr == fa && vaddr == va && addressMis == (fa != va) &&
      fdata == fd && vdata == vd && writeDataMis == (fd != vd)
    }

    /** What is shown of two records of class `c`. */
    predicate ShowsAs(c: Class, f: Record, v: Record)
      reads this
    {
      match c
      case Load => Shows(LoadAddress(f), LoadAddress(v), 0, 0)
      case Store => Shows(f.dAddr, v.dAddr, MaskedData(f), MaskedData(v))
      case Register | Other => Shows(0, 0, 0, 0)
    }

    constructor ()
      ensures Shows(0, 0, 0, 0)
    {
      addressMis, writeDataMis := false, false;
      faddr, vaddr, fdata, vdata := 0, 0, 0, 0;
    }

    method Validate(f: Record, v: Record) returns (ok: bool)
      modifies this
      ensures ok <==> Agree(f, v)
      ensures if f.pc == v.pc && f.ir == v.ir then ShowsAs(ClassOf(f.ir), f, v) else Shows(0, 0, 0, 0)
      ensures addressMis || writeDataMis ==> !ok
    {
      addressMis, writeDataMis := false, false;
      faddr, vaddr, fdata, vdata := 0, 0, 0, 0;
      if f.pc != v.pc || f.ir != v.ir { return false; }
      ok := Compare(ClassOf(f.ir), f, v);
    }

    method CompareAddresses(fa: Word, va: Word) returns (ok: bool)
      modifies `faddr, `vaddr, `addressMis
      ensures ok == !addressMis == (fa == va) && faddr == fa && vaddr == va
    {
      faddr, vaddr := fa, va;
      addressMis := faddr != vaddr;
      ok := !addressMis;
    }

    method CompareData(fd: Word, vd: Word) returns (ok: bool)
      modifies `fdata, `vdata, `writeDataMis
      ensures ok == !writeDataMis == (fd == vd) && fdata == fd && vdata == vd
    {
      fdata, vdata := fd, vd;
      writeDataMis := fdata != vdata;
      ok := !writeDataMis;
    }

    method Compare(c: Class, f: Record, v: Record) returns (ok: bool)
      requires Shows(0, 0, 0, 0)
      modifies this
      ensures ok <==> AgreeAs(c, f, v)
      ensures ShowsAs(c, f, v)
      ensures addressMis || writeDataMis ==> !ok
    {
      match c
      case Load =>
        ok := CompareAddresses(LoadAddress(f), LoadAddress(v));
      case Store =>
        ok := CompareAddresses(f.dAddr, v.dAddr);
        var same := CompareData(MaskedData(f), MaskedData(v));
        ok := ok && same;
      case Register =>
        return f.result == v.result;
      case Other =>
        return true;
    }
  }

  // ---- one round

  /** What a core does in one cycle: whether it could go on, its memory request, its record, and
      its count of retired instructions. */
  datatype Cycle = Cycle(ok: bool, req: Request, rec: Record, cnt: nat)

  /** The store a record stands for is the request. */
  predicate StoreOf(q: Request, rec: Record) {
    q.Stores() && q.dAddr == Num(rec.dAddr) && q.wdata == rec.dWdata && q.wmask == rec.dWmask
  }

  /** The functional core's request is the store its record shows, if it shows one. */
  predicate PrimaryFaithful(f: Cycle) {
    if ClassOf(f.rec.ir).Store? then StoreOf(f.req, f.rec) else !f.req.Stores()
  }

  /** One of the replica's cycles 0 .. n-1 stores. */
  ghost predicate HasStored(v: nat -> Cycle, n: nat) {
    exists i: nat :: i < n && v(i).req.Stores()
  }

  lemma StoredNext(v: nat -> Cycle, n: nat)
    ensures HasStored(v, n + 1) <==> HasStored(v, n) || v(n).req.Stores()
  {
    if v(n).req.Stores() { assert n < n + 1 && v(n).req.Stores(); }
  }

  /** If the record shows a store, the replica has made it, and no other; `exact` if only once. */
  ghost predicate ReplicaFaithful(v: nat -> Cycle, n: nat, rec: Record, exact: bool) {
    if ClassOf(rec.ir).Store? then HasStored(v, n) &&
    forall i: nat :: i < n && v(i).req.Stores() ==> StoreOf(v(i).req, rec) && (exact ==> !HasStored(v, i))
    else !HasStored(v, n)
  }

  /** The number of cycles the replica runs in a round. */
  function CyclesFrom(v: nat -> Cycle, i: nat): (n: nat)
    requires i < VCORE_TIMEOUT
    ensures i < n <= VCORE_TIMEOUT
    decreases VCORE_TIMEOUT - i
  {
    if v(i).rec.valid || !v(i).ok || i + 1 == VCORE_TIMEOUT then i + 1 else CyclesFrom(v, i + 1)
  }

  function Cycles(v: nat -> Cycle): (n: nat)
    ensures 0 < n <= VCORE_TIMEOUT
  {
    CyclesFrom(v, 0)
  }

  /** The replica's last cycle in a round. */
  function LastCycle(v: nat -> Cycle): Cycle {
    v(Cycles(v) - 1)
  }

  /** Its cycles in a round, but for one that retires an instruction or fails. */
  function Idle(v: nat -> Cycle): nat {
    if LastCycle(v).rec.valid || !LastCycle(v).ok then Cycles(v) - 1 else Cycles(v)
  }

  /** A round in which the cores report their stores truthfully, the validator accepts, and the
      masks it does not compare agree. The replica may repeat its store unless `exact`. */
  ghost predicate GoodRound(f: Cycle, v: nat -> Cycle, exact: bool) {
    var n := Cycles(v);
    var rec := v(n - 1).rec;
    PrimaryFaithful(f) && ReplicaFaithful(v, n, rec, exact) && Agree(f.rec, rec) &&
    (ClassOf(f.rec.ir).Store? ==> f.rec.dWmask == rec.dWmask)
  }

  /** Equal records and masks mean equal effect on any memory, also on top of each other. */
  lemma SameStore(f: Request, fr: Record, v: Request, vr: Record, flat: Flat)
    requires flat != [] && StoreOf(f, fr) && StoreOf(v, vr) && ClassOf(fr.ir).Store? && Agree(fr, vr) &&
             fr.dWmask == vr.dWmask
    ensures f.dAddr == v.dAddr && Served(flat, f) == Served(flat, v) == Served(Served(flat, f), v)
  {
    hide Num, ClassOf, Masked, Served;
    SameData(fr, vr);
    StoresAlike(flat, f, v);
  }

  lemma StoresAlike(flat: Flat, f: Request, v: Request)
    requires flat != [] && f.Stores() && v.Stores() && f.dAddr == v.dAddr && f.wmask == v.wmask
    requires Masked(f.wdata, f.wmask) == Masked(v.wdata, f.wmask)
    ensures Served(flat, f) == Served(flat, v) == Served(Served(flat, f), v)
  {
    hide Merged, ExpandWmask, Masked;
    var w := WordOf(flat, f.dAddr);
    MergedAlike(flat[w], f.wdata, v.wdata, f.wmask);
    assert Served(flat, f) == flat[w := Merged(flat[w], f.wdata, ExpandWmask(f.wmask))];
  }

  lemma MergedAlike(o: Word, d1: Word, d2: Word, mask: bv4)
    requires Masked(d1, mask) == Masked(d2, mask)
    ensures var m := ExpandWmask(mask); Merged(o, d1, m) == Merged(o, d2, m) == Merged(Merged(o, d1, m), d2, m)
  {
    hide ExpandWmask;
    MaskedDataOnly(o, d1, d2, ExpandWmask(mask));
    MergedTwice(o, d1, d2, ExpandWmask(mask));
  }

  lemma SameData(fr: Record, vr: Record)
    requires ClassOf(fr.ir).Store? && Agree(fr, vr) && fr.dWmask == vr.dWmask
    ensures fr.dAddr == vr.dAddr && Masked(fr.dWdata, fr.dWmask) == Masked(vr.dWdata, fr.dWmask)
  {
    hide ClassOf, ExpandWmask;
  }

  lemma MergedTwice(o: Word, d1: Word, d2: Word, m: Word)
    requires d1 & m == d2 & m
    ensures Merged(Merged(o, d1, m), d2, m) == Merged(o, d1, m)
  {
    assert ((o & !m) | (d2 & m)) & !m == o & !m;
  }

  /** Accepted stores have the same effect on every word exactly if their masks are equal. */
  lemma MasksMatterExactly(f: Record, v: Record)
    requires ClassOf(f.ir).Store? && Agree(f, v)
    ensures (forall w: Word :: Merged(w, f.dWdata, ExpandWmask(f.dWmask)) ==
              Merged(w, v.dWdata, ExpandWmask(v.dWmask))) <==> f.dWmask == v.dWmask
  {
    hide ClassOf, ExpandWmask, Merged;
    SameEffect(f.dWdata, f.dWmask, v.dWdata, v.dWmask);
  }

  /** Without equal masks the validator accepts stores that leave different words behind. */
  lemma MasksMatter()
    ensures var f, v := Record(true, 0, 0x00000023, 0, 0, 0, 0, 0, 0xf),
            Record(true, 0, 0x00000023, 0, 0, 0, 0, 0, 0x1);
            Agree(f, v) && Merged(0xffffffff, f.dWdata, ExpandWmask(f.dWmask)) != Merged(0xffffffff, v.dWdata,
                ExpandWmask(v.dWmask))
  {
  }

  // ---- one round on the memory

  /** Between rounds: both cores see the memory `flat`, and, if `exact`, nothing is buffered. */
  ghost predicate InStep(m: Memory, flat: Flat, exact: bool)
    reads m, m.mem
  {
    m.Valid() && m.numReps == 1 && m.View(0) == flat && m.View(1) == flat && (exact ==> m.Drained())
  }

  /** Within a round: the primary has made its request `q`, the replica has or has not stored. */
  ghost predicate InRound(m: Memory, flat: Flat, q: Request, stored: bool, exact: bool)
    reads m, m.mem
  {
    m.Valid() && m.numReps == 1 && |flat| == m.mem.Length &&
    m.View(0) == Served(flat, q) && m.View(1) == (if stored then Served(flat, q) else flat) &&
    (exact ==> m.Keys()[0] == (if q.Stores() && !stored then {WordOf(flat, q.dAddr)} else {}) && m.Keys()[1] == {})
  }

  /** The primary's half of a round. */
  method PrimaryTurn(m: Memory, q: Request, ghost flat: Flat, ghost exact: bool) returns (rdata: (Word, Word))
    requires m.Valid() && m.numReps == 1
    modifies m, m.mem
    ensures m.Valid() && m.View(0) == Served(old(m.View(0)), q)
    ensures old(InStep(m, flat, exact)) ==> InRound(m, flat, q, false, exact)
  {
    ghost var v0, k0 := m.Views(), m.Keys();
    rdata := m.Update(q, (0, 0));
    assert m.View(0) == m.Views()[0] && m.View(1) == m.Views()[1];
    if exact && old(InStep(m, flat, exact)) {
      assert k0[0] == {} && k0[1] == {};
      assert m.Keys() == KeyAdded(k0, 0, q, m.mem.Length);
      assert {} + {WordOf(flat, q.dAddr)} == {WordOf(flat, q.dAddr)};
    }
  }

  /** The replica's store is the primary's, the first or, unless `exact`, a repeated one. */
  ghost predicate Matches(flat: Flat, fq: Request, q: Request, stored: bool, exact: bool)
    requires flat != []
  {
    fq.Stores() && q.Stores() && q.dAddr == fq.dAddr && (exact ==> !stored) &&
    Served(flat, q) == Served(flat, fq) == Served(Served(flat, fq), q)
  }

  /** A cycle of the replica: no store, or a store that the primary has made. */
  method ReplicaTurn(m: Memory, q: Request, ghost flat: Flat, ghost fq: Request, ghost stored: bool, ghost exact: bool)
    requires m.Valid() && m.numReps == 1 && flat != []
    modifies m, m.mem
    ensures m.Valid() && m.View(0) == old(m.View(0))
    ensures old(InRound(m, flat, fq, stored, exact)) && !q.Stores() ==> InRound(m, flat, fq, stored, exact)
    ensures old(InRound(m, flat, fq, stored, exact)) && Matches(flat, fq, q, stored, exact) ==>
              InRound(m, flat, fq, true, exact)
  {
    ghost var v0, k0 := m.Views(), m.Keys();
    var rdata := m.UpdateReplica([q], [(0, 0)]);
    assert m.View(0) == m.Views()[0] && m.View(1) == m.Views()[1];
    ghost var k1 := StoredKeys(k0, [q], m.mem.Length, 1);
    assert StoredKeys(k0, [q], m.mem.Length, 0) == k0;
    assert k1 == KeyAdded(k0, 1, q, m.mem.Length);
    assert m.Cleaned(k1);
    if exact && old(InRound(m, flat, fq, stored, exact)) {
      if !q.Stores() {
        KeysKept(m, k1);
      } else if Matches(flat, fq, q, stored, exact) {
        assert {} + {WordOf(flat, q.dAddr)} == {WordOf(flat, q.dAddr)};
        KeysGone(m, k1, WordOf(flat, fq.dAddr));
      }
    }
  }

  lemma KeysKept(m: Memory, k: seq<set<nat>>)
    requires m.Valid() && m.numReps == 1 && m.Cleaned(k) && |k| == 2 && k[1] == {}
    ensures m.Keys() == k
  {
    forall c: nat, w: nat | c < 2
      ensures w in m.Keys()[c] <==> w in k[c]
    {
      assert w in m.wb[c] <==> m.Stays(k, c, w);
      assert w !in k[1];
    }
    assert m.Keys()[0] == k[0] && m.Keys()[1] == k[1];
  }

  lemma KeysGone(m: Memory, k: seq<set<nat>>, w: nat)
    requires m.Valid() && m.numReps == 1 && m.Cleaned(k) && |k| == 2 && k[0] == k[1] == {w} && w < m.mem.Length &&
             m.View(0) == m.View(1)
    ensures m.Keys()[0] == m.Keys()[1] == {}
  {
    forall c: nat, x: nat | c < 2
      ensures x !in m.Keys()[c]
    {
      assert x in m.wb[c] <==> m.Stays(k, c, x);
      assert InAll(k, w);
    }
    assert m.Keys()[0] == {} && m.Keys()[1] == {};
  }

  /** At the end of a round with no store outstanding, the cores are in step again. */
  lemma RoundEnds(m: Memory, flat: Flat, q: Request, stored: bool, exact: bool)
    requires InRound(m, flat, q, stored, exact) && (q.Stores() ==> stored)
    ensures InStep(m, Served(flat, q), exact)
  {
    if exact {
      assert m.wb[0].Keys == m.Keys()[0] && m.wb[1].Keys == m.Keys()[1];
      assert m.wb[0] == map[] && m.wb[1] == map[];
    }
  }

  /** Cycles 0 .. i-1 of a good round are done. */
  ghost predicate RoundGoing(m: Memory, flat: Flat, f: Cycle, v: nat -> Cycle, i: nat, exact: bool)
    reads m, m.mem
  {
    GoodRound(f, v, exact) && InRound(m, flat, f.req, HasStored(v, i), exact)
  }

  lemma StoreMatches(flat: Flat, f: Cycle, v: nat -> Cycle, i: nat, exact: bool)
    requires flat != [] && GoodRound(f, v, exact) && i < Cycles(v) && v(i).req.Stores()
    ensures Matches(flat, f.req, v(i).req, HasStored(v, i), exact)
  {
    hide Served, ClassOf, Num, Cycles;
    assert HasStored(v, Cycles(v));
    SameStore(f.req, f.rec, v(i).req, v(Cycles(v) - 1).rec, flat);
  }

  method CycleTurn(m: Memory, v: nat -> Cycle, i: nat, ghost flat: Flat, ghost f: Cycle, ghost exact: bool)
    requires m.Valid() && m.numReps == 1 && i < Cycles(v) && flat != []
    modifies m, m.mem
    ensures m.Valid() && m.View(0) == old(m.View(0))
    ensures old(RoundGoing(m, flat, f, v, i, exact)) ==> RoundGoing(m, flat, f, v, i + 1, exact)
  {
    hide GoodRound, InRound, Matches, HasStored;
    StoredNext(v, i);
    if GoodRound(f, v, exact) && v(i).req.Stores() { StoreMatches(flat, f, v, i, exact); }
    ReplicaTurn(m, v(i).req, flat, f.req, HasStored(v, i), exact);
  }

  lemma NoneStored(v: nat -> Cycle)
    ensures !HasStored(v, 0)
  {
  }

  /** A good round leaves no store of the primary unmatched. */
  lemma AllStored(f: Cycle, v: nat -> Cycle, exact: bool)
    requires GoodRound(f, v, exact)
    ensures f.req.Stores() ==> HasStored(v, Cycles(v))
  {
    hide HasStored;
  }

  /** One round: the functional core's instruction, then the replica until it retires one. */
  method Round(m: Memory, f: Cycle, v: nat -> Cycle, ghost flat: Flat, ghost exact: bool)
      returns (last: Cycle, idle: nat)
    requires m.Valid() && m.numReps == 1 && flat != []
    modifies m, m.mem
    ensures m.Valid() && last == LastCycle(v) && idle == Idle(v)
    ensures m.View(0) == Served(old(m.View(0)), f.req)
    ensures old(InStep(m, flat, exact)) && GoodRound(f, v, exact) ==> InStep(m, Served(flat, f.req), exact)
  {
    hide GoodRound, InRound, InStep, HasStored, Served;
    ghost var good := InStep(m, flat, exact) && GoodRound(f, v, exact);
    NoneStored(v);
    var rdata := PrimaryTurn(m, f.req, flat, exact);
    last, idle := ReplicaUntilValid(m, v, flat, f, exact);
    if good {
      AllStored(f, v, exact);
      RoundEnds(m, flat, f.req, HasStored(v, Cycles(v)), exact);
    }
  }

  lemma CyclesStart(v: nat -> Cycle)
    ensures CyclesFrom(v, 0) == Cycles(v)
  {
    hide CyclesFrom;
  }

  lemma CyclesNext(v: nat -> Cycle, i: nat)
    requires i < VCORE_TIMEOUT
    ensures CyclesFrom(v, i) == if v(i).rec.valid || !v(i).ok || i + 1 == VCORE_TIMEOUT then i + 1
              else CyclesFrom(v, i + 1)
  {
  }

  /** Run the replica until a valid instruction comes, or it fails, or time is up. */
  method ReplicaUntilValid(m: Memory, v: nat -> Cycle, ghost flat: Flat, ghost f: Cycle, ghost exact: bool)
      returns (last: Cycle, idle: nat)
    requires m.Valid() && m.numReps == 1 && flat != []
    modifies m, m.mem
    ensures m.Valid() && last == LastCycle(v) && idle == Idle(v) && m.View(0) == old(m.View(0))
    ensures old(RoundGoing(m, flat, f, v, 0, exact)) ==> RoundGoing(m, flat, f, v, Cycles(v), exact)
  {
    hide RoundGoing, Memory.Valid, Cycles, CyclesFrom;
    CyclesStart(v);
    ghost var going := RoundGoing(m, flat, f, v, 0, exact);
    var i := 0;
    last, idle := v(0), 0;
    var running := true;
    while running
      invariant if running then i < VCORE_TIMEOUT && idle == i && CyclesFrom(v, i) == Cycles(v)
                else 0 < i == Cycles(v) && last == v(i - 1) && idle == if last.rec.valid || !last.ok then i - 1 else i
      invariant m.Valid() && m.View(0) == old(m.View(0)) && (going ==> RoundGoing(m, flat, f, v, i, exact))
      decreases running, VCORE_TIMEOUT - i
    {
      CyclesNext(v, i);
      CycleTurn(m, v, i, flat, f, exact);
      last := v(i);
      var stop := last.rec.valid || !last.ok;
      if !stop { idle := idle + 1; }
      i := i + 1;
      running := !stop && i < VCORE_TIMEOUT;
    }
  }

  // ---- the loop

  /** A system call: what it writes for all cores, and whether it stops them. */
  datatype Call = Call(writes: seq<(nat, seq<bv8>)>, stops: bool)

  function CallDone(flat: Flat, writes: seq<(nat, seq<bv8>)>, n: nat): (f: Flat)
    requires flat != [] && n <= |writes|
    ensures |f| == |flat|
  {
    if n == 0 then flat else Alone(CallDone(flat, writes, n - 1), writes[n - 1].0, writes[n - 1].1)
  }

  lemma {:induction false} SameWords(a: seq<Flat>, flat: Flat, addr: nat, data: seq<bv8>, n: nat, c: nat)
    requires (forall c :: 0 <= c < |a| ==> a[c] != []) && flat != [] && n * 4 <= |data| && c < |a| && a[c] == flat
    ensures WordsWritten(a, addr, data, n)[c] == WordsWritten([flat], addr, data, n)[0]
  {
    if n > 0 { SameWords(a, flat, addr, data, n - 1, c); }
  }

  lemma {:induction false} SameBytes(a: seq<Flat>, flat: Flat, addr: nat, data: seq<bv8>, n: nat)
    requires |a| == 2 && a[0] == a[1] == flat && flat != [] && n <= |data|
    ensures BytesWritten(a, addr, data, n)[0] == BytesWritten(a, addr, data, n)[1] == BytesWritten([flat], addr,
              data, n)[0]
  {
    hide ByteToAll;
    if n > 0 {
      SameBytes(a, flat, addr, data, n - 1);
      SameByte(BytesWritten(a, addr, data, n - 1), BytesWritten([flat], addr, data, n - 1), addr + (n - 1),
          data[n - 1]);
    }
  }

  lemma SameByte(a: seq<Flat>, b: seq<Flat>, addr: nat, v: bv8)
    requires |a| == 2 && |b| == 1 && a[0] == a[1] == b[0] != []
    ensures ByteToAll(a, addr, v)[0] == ByteToAll(a, addr, v)[1] == ByteToAll(b, addr, v)[0]
  {
  }

  /** A write for all cores keeps cores in step in step. */
  lemma WriteInStep(views: seq<Flat>, flat: Flat, addr: nat, data: seq<bv8>)
    requires |views| == 2 && views[0] == views[1] == flat && flat != []
    ensures Written(views, addr, data)[0] == Written(views, addr, data)[1] == Alone(flat, addr, data)
  {
    if addr % 4 == 0 && |data| % 4 == 0 {
      SameWords(views, flat, addr, data, |data| / 4, 0);
      SameWords(views, flat, addr, data, |data| / 4, 1);
    } else {
      SameBytes(views, flat, addr, data, |data|);
    }
  }

  /** The primary's view does not depend on the others. */
  lemma FirstAlone(views: seq<Flat>, addr: nat, data: seq<bv8>)
    requires views != [] && forall c :: 0 <= c < |views| ==> views[c] != []
    ensures Written(views, addr, data)[0] == Alone(views[0], addr, data)
  {
    if addr % 4 == 0 && |data| % 4 == 0 {
      SameWords(views, views[0], addr, data, |data| / 4, 0);
    } else {
      FirstBytes(views, addr, data, |data|);
    }
  }

  lemma {:induction false} FirstBytes(views: seq<Flat>, addr: nat, data: seq<bv8>, n: nat)
    requires views != [] && (forall c :: 0 <= c < |views| ==> views[c] != []) && n <= |data|
    ensures BytesWritten(views, addr, data, n)[0] == BytesWritten([views[0]], addr, data, n)[0]
  {
    hide ByteToAll;
    if n > 0 {
      FirstBytes(views, addr, data, n - 1);
      FirstByte(BytesWritten(views, addr, data, n - 1), BytesWritten([views[0]], addr, data, n - 1), addr + (n - 1),
          data[n - 1]);
    }
  }

  lemma FirstByte(a: seq<Flat>, b: seq<Flat>, addr: nat, v: bv8)
    requires a != [] && |b| == 1 && a[0] == b[0] && (forall c :: 0 <= c < |a| ==> a[c] != []) && b[0] != []
    ensures ByteToAll(a, addr, v)[0] == ByteToAll(b, addr, v)[0]
  {
  }

  method Emulate(m: Memory, call: Call, ghost flat: Flat, ghost exact: bool)
    requires m.Valid() && m.numReps == 1
    modifies m, m.mem
    ensures m.Valid() && m.View(0) == CallDone(old(m.View(0)), call.writes, |call.writes|)
    ensures old(InStep(m, flat, exact)) ==> InStep(m, CallDone(flat, call.writes, |call.writes|), exact)
  {
    ghost var good := InStep(m, flat, exact);
    for i := 0 to |call.writes|
      invariant m.Valid() && m.View(0) == CallDone(old(m.View(0)), call.writes, i)
      invariant good ==> InStep(m, CallDone(flat, call.writes, i), exact)
    {
      EmulateWrite(m, call.writes[i].0, call.writes[i].1, if good then CallDone(flat, call.writes, i) else flat, exact);
    }
  }

  method EmulateWrite(m: Memory, addr: nat, data: seq<bv8>, ghost flat: Flat, ghost exact: bool)
    requires m.Valid() && m.numReps == 1
    modifies m, m.mem
    ensures m.Valid() && m.View(0) == Alone(old(m.View(0)), addr, data)
    ensures old(InStep(m, flat, exact)) ==> InStep(m, Alone(flat, addr, data), exact)
  {
    ghost var v0 := m.Views();
    assert m.View(0) == v0[0];
    FirstAlone(v0, addr, data);
    ghost var good := InStep(m, flat, exact);
    if good { WriteInStep(v0, flat, addr, data); }
    m.Write(addr, data);
    assert m.View(0) == m.Views()[0] && m.View(1) == m.Views()[1];
  }

  // ---- the ring of recent records

  datatype Slot = Empty | Logged(rec: Record)

  /** The slot that count `j` maps to holds the record of the j-th instruction. */
  predicate SlotHolds(ring: seq<Slot>, recs: nat -> Record, j: int)
    requires ring != []
  {
    ring[j % |ring|] == if j >= 1 then Logged(recs(j - 1)) else Empty
  }

  /** The ring holds the last records up to count `c`. */
  ghost predicate RingHolds(ring: seq<Slot>, recs: nat -> Record, c: nat) {
    ring != [] ==> forall j: int :: c - |ring| < j <= c ==> SlotHolds(ring, recs, j)
  }

  lemma DistinctSlots(j: int, c: int, n: nat)
    requires n > 0 && 0 < c - j < n
    ensures j % n != c % n
  {
    if j % n + (c - j) < n {
      Bits.DivUnique(c, n, j / n, j % n + (c - j));
    } else {
      Bits.DivUnique(c, n, j / n + 1, j % n + (c - j) - n);
    }
  }

  lemma RingPut(ring: seq<Slot>, recs: nat -> Record, c: nat)
    requires RingHolds(ring, recs, c) && ring != []
    ensures RingHolds(ring[(c + 1) % |ring| := Logged(recs(c))], recs, c + 1)
  {
    var ring' := ring[(c + 1) % |ring| := Logged(recs(c))];
    forall j: int | c + 1 - |ring| < j <= c + 1
      ensures SlotHolds(ring', recs, j)
    {
      if j <= c {
        assert SlotHolds(ring, recs, j);
        DistinctSlots(j, c + 1, |ring|);
      }
    }
  }

  /** The records of counts `lo` + 1 to `hi`; counts start at one. */
  function Recent(recs: nat -> Record, lo: int, hi: int): seq<Record>
    requires lo <= hi
    decreases hi - lo
  {
    if lo == hi then [] else Recent(recs, lo, hi - 1) + (if hi >= 1 then [recs(hi - 1)] else [])
  }

  lemma {:induction false} RecentAre(recs: nat -> Record, lo: int, hi: int)
    requires lo <= hi
    ensures var r, first := Recent(recs, lo, hi), if lo < 0 then 0 else lo;
            |r| == (if hi < first then 0 else hi - first) && forall k :: 0 <= k < |r| ==> r[k] == recs(first + k)
    decreases hi - lo
  {
    if lo < hi { RecentAre(recs, lo, hi - 1); }
  }

  lemma SameSlot(c: nat, i: nat, n: nat)
    requires n > 0
    ensures (c % n + i) % n == (c + i - n) % n
  {
    var x := c % n + i;
    assert c + i - n == n * (c / n - 1) + x;
    assert n * (c / n - 1 + x / n) == n * (c / n - 1) + n * (x / n);
    Bits.DivUnique(c + i - n, n, c / n - 1 + x / n, x % n);
  }

  class LogRing {
    var slots: seq<Slot>

    constructor (n: nat)
      ensures |slots| == n && forall i :: 0 <= i < n ==> slots[i] == Empty
    {
      slots := seq(n, _ => Empty);
    }

    /** Show the ring from slot `cnt` mod its length on. If it is filled up to the count before
        `cnt`, these are exactly the records before, as many as fit, in order. */
    method Dump(cnt: nat, ghost recs: nat -> Record) returns (shown: seq<Record>)
      ensures slots != [] && cnt > 0 && RingHolds(slots, recs, cnt - 1) ==>
                shown == Recent(recs, cnt - 1 - |slots|, cnt - 1)
    {
      shown := [];
      if slots == [] { return; }
      var n := |slots|;
      var start := cnt % n;
      ghost var filled := cnt > 0 && RingHolds(slots, recs, cnt - 1);
      for i := 0 to n
        invariant filled ==> shown == Recent(recs, cnt - 1 - n, cnt - 1 - n + i)
      {
        SameSlot(cnt, i, n);
        assert filled ==> SlotHolds(slots, recs, cnt + i - n);
        var slot := slots[(start + i) % n];
        if slot.Logged? { shown := shown + [slot.rec]; }
      }
    }

    /** Save a record at count `cnt`. */
    method Save(cnt: nat, rec: Record, ghost recs: nat -> Record)
      modifies this
      ensures |slots| == |old(slots)|
      ensures cnt > 0 && rec == recs(cnt - 1) && old(RingHolds(slots, recs, cnt - 1)) ==> RingHolds(slots, recs, cnt)
    {
      if slots != [] {
        if cnt > 0 && rec == recs(cnt - 1) && RingHolds(slots, recs, cnt - 1) { RingPut(slots, recs, cnt - 1); }
        slots := slots[cnt % |slots| := Logged(rec)];
      }
    }
  }

  // ---- the whole loop

  /** The memory a single core would have after `n` instructions and the system calls among them. */
  function SingleRun(flat: Flat, f: nat -> Cycle, calls: nat -> Call, n: nat): (r: Flat)
    requires flat != []
    ensures |r| == |flat|
  {
    if n == 0 then flat else AfterRound(SingleRun(flat, f, calls, n - 1), f(n - 1), calls(n - 1))
  }

  function AfterRound(flat: Flat, f: Cycle, call: Call): (r: Flat)
    requires flat != []
    ensures |r| == |flat|
  {
    if f.rec.ir == ECALL then CallDone(Served(flat, f.req), call.writes, |call.writes|) else Served(flat, f.req)
  }

  ghost predicate GoodAt(f: nat -> Cycle, v: nat -> (nat -> Cycle), i: nat, exact: bool) {
    GoodRound(f(i), v(i), exact)
  }

  ghost predicate AllGood(f: nat -> Cycle, v: nat -> (nat -> Cycle), n: nat, exact: bool) {
    forall i: nat {:trigger GoodAt(f, v, i, exact)} :: i < n ==> GoodAt(f, v, i, exact)
  }

  // ---- when the loop ends

  /** The records of round `i` agree. */
  predicate AgreeAt(f: nat -> Cycle, v: nat -> (nat -> Cycle), i: nat) {
    Agree(f(i).rec, LastCycle(v(i)).rec)
  }

  /** The functional core fails, or has executed enough. */
  predicate PrimaryHalts(f: nat -> Cycle, enough: int, i: nat) {
    !f(i).ok || i + 1 >= enough
  }

  /** The replica fails, runs out of time, or has executed enough. */
  predicate ReplicaHalts(v: nat -> (nat -> Cycle), maxInsts: nat, i: nat) {
    var last := LastCycle(v(i));
    last.cnt >= maxInsts || !last.ok || !last.rec.valid
  }

  /** A system call stops both. */
  predicate CallStops(f: nat -> Cycle, calls: nat -> Call, i: nat) {
    f(i).rec.ir == ECALL && calls(i).stops
  }

  /** The loop ends with round `i`, if it gets so far. */
  predicate EndsAt(f: nat -> Cycle, v: nat -> (nat -> Cycle), calls: nat -> Call, enough: int, maxInsts: nat, i: nat) {
    PrimaryHalts(f, enough, i) || ReplicaHalts(v, maxInsts, i) || !AgreeAt(f, v, i) || CallStops(f, calls, i)
  }

  /** It ends with round `n`, and with none before. */
  ghost predicate EndsFirst(f: nat -> Cycle, v: nat -> (nat -> Cycle), calls: nat -> Call, enough: int,
      maxInsts: nat, n: nat) {
    EndsAt(f, v, calls, enough, maxInsts, n) && NotYet(f, v, calls, enough, maxInsts, n)
  }

  ghost predicate NotYet(f: nat -> Cycle, v: nat -> (nat -> Cycle), calls: nat -> Call, enough: int, maxInsts: nat,
      n: nat) {
    forall i: nat :: i < n ==> !EndsAt(f, v, calls, enough, maxInsts, i)
  }

  lemma OneMoreYet(f: nat -> Cycle, v: nat -> (nat -> Cycle), calls: nat -> Call, enough: int, maxInsts: nat, n: nat)
    requires NotYet(f, v, calls, enough, maxInsts, n)
    ensures NotYet(f, v, calls, enough, maxInsts, n + 1) <==> !EndsAt(f, v, calls, enough, maxInsts, n)
  {
    hide EndsAt;
  }

  /** Idle cycles of the first `n` rounds. */
  function IdleSum(v: nat -> (nat -> Cycle), n: nat): nat {
    if n == 0 then 0 else IdleSum(v, n - 1) + Idle(v(n - 1))
  }

  /** How the loop ended: rounds begun, who halted, whether the records agreed, and the records shown. */
  datatype Verdict = Verdict(rounds: nat, fHalt: bool, vHalt: bool, mismatch: bool, shown: seq<Record>)

  function Records(f: nat -> Cycle): nat -> Record {
    (i: nat) => f(i).rec
  }

  /** After `n` rounds, if all were good, the cores are in step on the single-core memory. */
  ghost predicate OnCourse(m: Memory, flat: Flat, f: nat -> Cycle, v: nat -> (nat -> Cycle), calls: nat -> Call,
      n: nat, exact: bool)
    reads m, m.mem
  {
    m.Valid() && m.numReps == 1 && flat != [] &&
    (AllGood(f, v, n, exact) ==> InStep(m, SingleRun(flat, f, calls, n), exact))
  }

  /** One turn of the loop: a round and the comparison. */
  method Turn(m: Memory, vld: Validator, f: nat -> Cycle, v: nat -> (nat -> Cycle), n: nat, ghost calls: nat -> Call,
      ghost flat: Flat, ghost exact: bool)
    returns (last: Cycle, idle: nat, same: bool)
    requires OnCourse(m, flat, f, v, calls, n, exact)
    modifies m, m.mem, vld
    ensures m.Valid() && last == LastCycle(v(n)) && idle == Idle(v(n)) && (same <==> AgreeAt(f, v, n))
    ensures AllGood(f, v, n + 1, exact) ==> same && InStep(m, Served(SingleRun(flat, f, calls, n), f(n).req), exact)
  {
    ghost var now := SingleRun(flat, f, calls, n);
    if AllGood(f, v, n + 1, exact) { assert GoodAt(f, v, n, exact) && AllGood(f, v, n, exact); }
    last, idle := Round(m, f(n), v(n), now, exact);
    same := vld.Validate(f(n).rec, last.rec);
  }

  method Finish(m: Memory, f: nat -> Cycle, n: nat, calls: nat -> Call, ghost v: nat -> (nat -> Cycle),
      ghost flat: Flat, ghost exact: bool)
    requires m.Valid() && m.numReps == 1 && flat != []
    requires AllGood(f, v, n + 1, exact) ==> InStep(m, Served(SingleRun(flat, f, calls, n), f(n).req), exact)
    modifies m, m.mem
    ensures OnCourse(m, flat, f, v, calls, n + 1, exact)
  {
    if f(n).rec.ir == ECALL { Emulate(m, calls(n), Served(SingleRun(flat, f, calls, n), f(n).req), exact); }
  }

  /** The second half of the loop body: show the recent records, or save this one and finish. */
  method Conclude(m: Memory, same: bool, ring: LogRing, f: nat -> Cycle, n: nat, fcnt: nat, calls: nat -> Call,
      ghost v: nat -> (nat -> Cycle), ghost flat: Flat, ghost exact: bool) returns (shown: seq<Record>)
    requires m.Valid() && m.numReps == 1 && flat != [] && fcnt == (if f(n).ok then n + 1 else n)
    requires AllGood(f, v, n + 1, exact) ==> same && InStep(m, Served(SingleRun(flat, f, calls, n), f(n).req), exact)
    requires RingHolds(ring.slots, Records(f), n)
    modifies m, m.mem, ring
    ensures m.Valid() && |ring.slots| == |old(ring.slots)| && (same ==> OnCourse(m, flat, f, v, calls, n + 1, exact))
    ensures same && f(n).ok ==> RingHolds(ring.slots, Records(f), n + 1)
    ensures !same ==> Shown(shown, f, n, |ring.slots|)
  {
    hide AllGood, InStep, SingleRun, Served, OnCourse, RingHolds, Memory.Valid;
    shown := [];
    if !same {
      shown := ring.Dump(fcnt, Records(f));
    } else {
      ring.Save(fcnt, f(n).rec, Records(f));
      Finish(m, f, n, calls, v, flat, exact);
    }
  }

  /** What a mismatch in round `n` shows: the records of the rounds before, as many as fit. */
  ghost predicate Shown(shown: seq<Record>, f: nat -> Cycle, n: nat, size: nat) {
    f(n).ok && size > 0 ==> shown == Recent(Records(f), n - size, n)
  }

  /** Where the loop stands after `n` rounds, `fcnt` of them retired by the functional core. */
  ghost predicate Looping(m: Memory, ring: LogRing, flat: Flat, f: nat -> Cycle, v: nat -> (nat -> Cycle),
      calls: nat -> Call, n: nat, fcnt: nat, fHalt: bool, maxInsts: nat, exact: bool)
    reads m, m.mem, ring
  {
    OnCourse(m, flat, f, v, calls, n, exact) && n <= (if maxInsts == 0 then 1 else maxInsts) &&
    (!fHalt ==> n == fcnt && (n == 0 || n < maxInsts) && RingHolds(ring.slots, Records(f), n))
  }

  lemma StartLooping(m: Memory, ring: LogRing, f: nat -> Cycle, v: nat -> (nat -> Cycle), calls: nat -> Call,
      maxInsts: nat, exact: bool)
    requires m.Valid() && m.numReps == 1 && m.View(0) == m.View(1) && (exact ==> m.Drained())
    requires forall i :: 0 <= i < |ring.slots| ==> ring.slots[i] == Empty
    ensures Looping(m, ring, m.View(0), f, v, calls, 0, 0, false, maxInsts, exact)
  {
    var s := ring.slots;
    if s != [] {
      forall j: int | 0 - |s| < j <= 0
        ensures SlotHolds(s, Records(f), j)
      {
      }
    }
  }

  /** The loop has ended with the first round that ends it, with a mismatch if and only if that round's
      records disagree; and who is halted. */
  ghost predicate Ended(d: Verdict, f: nat -> Cycle, v: nat -> (nat -> Cycle), calls: nat -> Call, enough: int,
      maxInsts: nat) {
    d.rounds > 0 &&
    var n := d.rounds - 1;
    EndsFirst(f, v, calls, enough, maxInsts, n) && (d.mismatch <==> !AgreeAt(f, v, n)) &&
    (d.fHalt <==> d.mismatch || PrimaryHalts(f, enough, n) || CallStops(f, calls, n)) &&
    (d.vHalt <==> d.mismatch || ReplicaHalts(v, maxInsts, n) || CallStops(f, calls, n))
  }

  /** After a round the loop has ended, or goes on. */
  lemma EndedOrNot(d: Verdict, f: nat -> Cycle, v: nat -> (nat -> Cycle), calls: nat -> Call, enough: int,
      maxInsts: nat, n: nat)
    requires NotYet(f, v, calls, enough, maxInsts, n) && d.rounds == n + 1 && (d.mismatch <==> !AgreeAt(f, v, n))
    requires d.fHalt <==> d.mismatch || PrimaryHalts(f, enough, n) || CallStops(f, calls, n)
    requires d.vHalt <==> d.mismatch || ReplicaHalts(v, maxInsts, n) || CallStops(f, calls, n)
    ensures if d.fHalt || d.vHalt then Ended(d, f, v, calls, enough, maxInsts)
            else NotYet(f, v, calls, enough, maxInsts, n + 1)
  {
    hide AgreeAt, PrimaryHalts, ReplicaHalts, CallStops, NotYet;
    OneMoreYet(f, v, calls, enough, maxInsts, n);
  }

  /** One time through the loop. */
  method OneRound(m: Memory, vld: Validator, ring: LogRing, f: nat -> Cycle, v: nat -> (nat -> Cycle),
      calls: nat -> Call, n: nat, fcnt: nat, maxInsts: nat, ghost flat: Flat, ghost exact: bool)
      returns (fcnt': nat, fHalt: bool, vHalt: bool, idle: nat, same: bool, shown: seq<Record>)
    requires Looping(m, ring, flat, f, v, calls, n, fcnt, false, maxInsts, exact)
    requires NotYet(f, v, calls, maxInsts, maxInsts, n)
    modifies m, m.mem, vld, ring
    ensures |ring.slots| == |old(ring.slots)| && n + 1 <= (if maxInsts == 0 then 1 else maxInsts) &&
            (!fHalt ==> fcnt < fcnt' < maxInsts)
    ensures m.Valid() && (AllGood(f, v, n + 1, exact) ==> same) && idle == Idle(v(n))
    ensures if fHalt || vHalt then Ended(Verdict(n + 1, fHalt, vHalt, !same, shown), f, v, calls, maxInsts, maxInsts)
            else NotYet(f, v, calls, maxInsts, maxInsts, n + 1)
    ensures if same then Looping(m, ring, flat, f, v, calls, n + 1, fcnt', fHalt, maxInsts, exact)
            else fHalt && vHalt && Shown(shown, f, n, |ring.slots|)
  {
    hide NotYet, Ended, AgreeAt, Shown, AllGood;
    fcnt', fHalt, vHalt := fcnt, false, false;
    if f(n).ok { fcnt' := fcnt + 1; }
    if fcnt' >= maxInsts || !f(n).ok { fHalt := true; }
    var last;
    last, idle, same := Turn(m, vld, f, v, n, calls, flat, exact);
    if last.cnt >= maxInsts || !last.ok || !last.rec.valid { vHalt := true; }
    shown := Conclude(m, same, ring, f, n, fcnt', calls, v, flat, exact);
    if !same || (f(n).rec.ir == ECALL && calls(n).stops) { fHalt, vHalt := true, true; }
    EndedOrNot(Verdict(n + 1, fHalt, vHalt, !same, shown), f, v, calls, maxInsts, maxInsts, n);
  }

  /** sim_concurrent. */
  method SimConcurrent(m: Memory, f: nat -> Cycle, v: nat -> (nat -> Cycle), calls: nat -> Call, maxInsts: nat,
      mismatchInsts: nat, ghost exact: bool)
    returns (verdict: Verdict, cycleCount: nat)
    requires m.Valid() && m.numReps == 1 && m.View(0) == m.View(1) && (exact ==> m.Drained())
    modifies m, m.mem
    ensures m.Valid() && (verdict.fHalt || verdict.vHalt)
    ensures 0 < verdict.rounds <= if maxInsts == 0 then 1 else maxInsts
    ensures Ended(verdict, f, v, calls, maxInsts, maxInsts) && cycleCount == IdleSum(v, verdict.rounds)
    ensures AllGood(f, v, verdict.rounds, exact) ==>
              !verdict.mismatch && InStep(m, SingleRun(old(m.View(0)), f, calls, verdict.rounds), exact)
    ensures verdict.mismatch ==> Shown(verdict.shown, f, verdict.rounds - 1, mismatchInsts)
  {
    var vld := new Validator();
    var ring := new LogRing(mismatchInsts);
    StartLooping(m, ring, f, v, calls, maxInsts, exact);
    verdict, cycleCount := Loop(m, vld, ring, f, v, calls, maxInsts, m.View(0), exact);
  }

  /** The loop proper. */
  method Loop(m: Memory, vld: Validator, ring: LogRing, f: nat -> Cycle, v: nat -> (nat -> Cycle),
      calls: nat -> Call, maxInsts: nat, ghost flat: Flat, ghost exact: bool)
    returns (verdict: Verdict, cycleCount: nat)
    requires m.Valid() && Looping(m, ring, flat, f, v, calls, 0, 0, false, maxInsts, exact)
    modifies m, m.mem, vld, ring
    ensures m.Valid() && verdict.rounds <= (if maxInsts == 0 then 1 else maxInsts) && (verdict.fHalt || verdict.vHalt)
    ensures Ended(verdict, f, v, calls, maxInsts, maxInsts) && cycleCount == IdleSum(v, verdict.rounds)
    ensures !verdict.mismatch ==> OnCourse(m, flat, f, v, calls, verdict.rounds, exact)
    ensures verdict.mismatch ==> verdict.rounds > 0 && !AllGood(f, v, verdict.rounds, exact)
    ensures verdict.mismatch ==> Shown(verdict.shown, f, verdict.rounds - 1, |old(ring.slots)|)
  {
    hide AllGood, InStep, SingleRun, RingHolds, Shown, NotYet, Ended, OnCourse, Looping, Memory.Valid, Idle;
    var n: nat, fcnt: nat := 0, 0;
    var fHalt, vHalt := false, false;
    cycleCount := 0;
    NothingYet(f, v, calls, maxInsts);
    while !fHalt && !vHalt
      invariant |ring.slots| == |old(ring.slots)| && m.Valid() &&
                n <= (if maxInsts == 0 then 1 else maxInsts) && (!fHalt ==> fcnt <= maxInsts) &&
                Looping(m, ring, flat, f, v, calls, n, fcnt, fHalt, maxInsts, exact)
      invariant cycleCount == IdleSum(v, n) &&
                if fHalt || vHalt then Ended(Verdict(n, fHalt, vHalt, false, []), f, v, calls, maxInsts, maxInsts)
                else NotYet(f, v, calls, maxInsts, maxInsts, n)
      decreases !fHalt, maxInsts - fcnt
    {
      var idle, same, shown;
      fcnt, fHalt, vHalt, idle, same, shown := OneRound(m, vld, ring, f, v, calls, n, fcnt, maxInsts, flat, exact);
      n, cycleCount := n + 1, cycleCount + idle;
      if !same { return Verdict(n, true, true, true, shown), cycleCount; }
      EndedSame(Verdict(n, fHalt, vHalt, false, shown), f, v, calls, maxInsts);
    }
    verdict := Verdict(n, fHalt, vHalt, false, []);
    LoopedOut(m, ring, flat, f, v, calls, n, fcnt, fHalt, maxInsts, exact);
  }

  lemma LoopedOut(m: Memory, ring: LogRing, flat: Flat, f: nat -> Cycle, v: nat -> (nat -> Cycle),
      calls: nat -> Call, n: nat, fcnt: nat, fHalt: bool, maxInsts: nat, exact: bool)
    requires Looping(m, ring, flat, f, v, calls, n, fcnt, fHalt, maxInsts, exact)
    ensures OnCourse(m, flat, f, v, calls, n, exact)
  {
  }

  /** What is shown does not matter to whether the loop has ended. */
  lemma EndedSame(d: Verdict, f: nat -> Cycle, v: nat -> (nat -> Cycle), calls: nat -> Call, maxInsts: nat)
    requires d.rounds > 0
    ensures Ended(d, f, v, calls, maxInsts, maxInsts) <==> Ended(d.(shown := []), f, v, calls, maxInsts, maxInsts)
  {
  }

  lemma NothingYet(f: nat -> Cycle, v: nat -> (nat -> Cycle), calls: nat -> Call, maxInsts: nat)
    ensures NotYet(f, v, calls, maxInsts, maxInsts, 0)
  {
  }
}
