/**
 * What a run of the sequential coder must leave behind: the bytes of each MCU and the coder
 * state between MCUs (ITU-T T.81, F.1.1.5 and F.1.2).
 */
module SequentialCoding {
  import opened Bits
  import opened ByteStuffing
  import opened EntropySpec

  /** Coder state between MCUs: bits not yet sent, DC predictions, restart bookkeeping. */
  datatype CoderState = CoderState(pending: Bits, lastDc: seq<int>, toGo: nat, nextRestart: nat)

  predicate StateOk(sc: Scan, s: CoderState) {
    |s.pending| < 8 && |s.lastDc| == |sc.dcTbl| && CodableDc(s.lastDc) && s.nextRestart < 8 &&
    (sc.restartInterval == 0 || s.toGo <= sc.restartInterval)
  }

  const RST0: nat := 0xD0

  function Zeros(n: nat): (z: seq<int>)
    ensures |z| == n && CodableDc(z)
  {
    seq(n, _ => 0)
  }

  function Start(sc: Scan): CoderState {
    CoderState([], Zeros(|sc.dcTbl|), sc.restartInterval, 0)
  }

  predicate RestartDue(sc: Scan, s: CoderState) {
    sc.restartInterval > 0 && s.toGo == 0
  }

  /** The bytes of a restart: the flushed segment and its marker. */
  function RestartBytes(s: CoderState): seq<Byte>
    requires s.nextRestart < 8
  {
    Flushed(s.pending) + [0xFF, RST0 + s.nextRestart]
  }

  function AfterRestart(sc: Scan, s: CoderState): CoderState {
    if RestartDue(sc, s) then s.(pending := [], lastDc := Zeros(|sc.dcTbl|)) else s
  }

  /** Restart counting once an MCU is done. */
  function Counted(sc: Scan, s: CoderState): CoderState {
    if sc.restartInterval == 0 then s
    else if s.toGo == 0 then s.(toGo := sc.restartInterval - 1, nextRestart := (s.nextRestart + 1) % 8)
    else s.(toGo := s.toGo - 1)
  }

  /** The items of the next MCU. */
  function NextItems(sc: Scan, s: CoderState, mcu: Mcu): (items: seq<Item>)
    requires sc.Valid() && StateOk(sc, s) && CodableMcu(sc, mcu)
    ensures ItemsOk(items)
  {
    McuItemsOk(sc, mcu, AfterRestart(sc, s).lastDc, 0);
    McuItems(sc, mcu, AfterRestart(sc, s).lastDc, 0)
  }

  function McuBytes(sc: Scan, t: CTables, s: CoderState, mcu: Mcu): seq<Byte>
    requires sc.Valid() && t.Valid() && StateOk(sc, s) && CodableMcu(sc, mcu)
  {
    (if RestartDue(sc, s) then RestartBytes(s) else []) +
    Packed(AfterRestart(sc, s).pending + ItemsBits(t, NextItems(sc, s, mcu)))
  }

  function NextState(sc: Scan, t: CTables, s: CoderState, mcu: Mcu): (s': CoderState)
    requires sc.Valid() && t.Valid() && StateOk(sc, s) && CodableMcu(sc, mcu)
    ensures StateOk(sc, s')
  {
    var s1 := AfterRestart(sc, s);
    McuItemsOk(sc, mcu, s1.lastDc, 0);
    Counted(sc, s1.(pending := Tail(s1.pending + ItemsBits(t, NextItems(sc, s, mcu))),
                    lastDc := McuDc(sc, mcu, s1.lastDc, 0)))
  }

  /** After a restart nothing is left of what came before: whatever the states, the bytes behind the marker are
      the same, and so is the state after the MCU, but for the number of the next restart. */
  lemma RestartForgets(sc: Scan, t: CTables, a: CoderState, b: CoderState, mcu: Mcu)
    requires sc.Valid() && t.Valid() && StateOk(sc, a) && StateOk(sc, b) && CodableMcu(sc, mcu)
    requires RestartDue(sc, a) && RestartDue(sc, b)
    ensures |RestartBytes(a)| <= |McuBytes(sc, t, a, mcu)| && |RestartBytes(b)| <= |McuBytes(sc, t, b, mcu)|
    ensures McuBytes(sc, t, a, mcu)[|RestartBytes(a)|..] == McuBytes(sc, t, b, mcu)[|RestartBytes(b)|..]
    ensures NextState(sc, t, a, mcu).(nextRestart := 0) == NextState(sc, t, b, mcu).(nextRestart := 0)
    ensures NextState(sc, t, a, mcu).nextRestart == (a.nextRestart + 1) % 8
  {
    hide RestartBytes, Packed, ItemsBits, McuItems;
    assert AfterRestart(sc, a).pending == AfterRestart(sc, b).pending == [];
    assert NextItems(sc, a, mcu) == NextItems(sc, b, mcu);
  }

  predicate CodableMcus(sc: Scan, mcus: seq<Mcu>) {
    forall i :: 0 <= i < |mcus| ==> CodableMcu(sc, mcus[i])
  }

  /** State after, and bytes of, the first `n` MCUs of a run. */
  function RunState(sc: Scan, t: CTables, mcus: seq<Mcu>, n: nat): (s: CoderState)
    requires sc.Valid() && t.Valid() && CodableMcus(sc, mcus) && n <= |mcus|
    ensures StateOk(sc, s)
  {
    if n == 0 then Start(sc) else NextState(sc, t, RunState(sc, t, mcus, n - 1), mcus[n - 1])
  }

  function RunBytes(sc: Scan, t: CTables, mcus: seq<Mcu>, n: nat): seq<Byte>
    requires sc.Valid() && t.Valid() && CodableMcus(sc, mcus) && n <= |mcus|
  {
    if n == 0 then [] else RunBytes(sc, t, mcus, n - 1) + McuBytes(sc, t, RunState(sc, t, mcus, n - 1), mcus[n - 1])
  }

  /** Every item of MCU `i` has a code. */
  predicate SendableMcu(sc: Scan, t: CTables, mcus: seq<Mcu>, i: nat)
    requires sc.Valid() && t.Valid() && CodableMcus(sc, mcus) && i < |mcus|
  {
    AllSendable(t, NextItems(sc, RunState(sc, t, mcus, i), mcus[i]))
  }

  predicate RunSendable(sc: Scan, t: CTables, mcus: seq<Mcu>, n: nat)
    requires sc.Valid() && t.Valid() && CodableMcus(sc, mcus) && n <= |mcus|
  {
    n == 0 || (RunSendable(sc, t, mcus, n - 1) && SendableMcu(sc, t, mcus, n - 1))
  }

  lemma {:induction false} RunSendableEach(sc: Scan, t: CTables, mcus: seq<Mcu>, i: nat, n: nat)
    requires sc.Valid() && t.Valid() && CodableMcus(sc, mcus) && i < n <= |mcus| && RunSendable(sc, t, mcus, n)
    ensures SendableMcu(sc, t, mcus, i)
  {
    hide SendableMcu, RunState;
    if i < n - 1 { RunSendableEach(sc, t, mcus, i, n - 1); }
  }

  /** A whole scan: all MCUs, then the flushed tail. */
  function ScanBytes(sc: Scan, t: CTables, mcus: seq<Mcu>): seq<Byte>
    requires sc.Valid() && t.Valid() && CodableMcus(sc, mcus)
  {
    RunBytes(sc, t, mcus, |mcus|) + Flushed(RunState(sc, t, mcus, |mcus|).pending)
  }
}
