/**
 * The progressive AC coder (jcphuff.c): first pass and refinement, with the end-of-band run and
 * the correction-bit buffer held over from block to block. The coder hands symbols and bits to
 * emit_symbol and emit_bits; `out` records them, a segment at a time.
 */
module AcCoder {
  import opened JpegLimits
  import opened EntropySpec
  import opened EobRuns
  import opened AcBand
  import opened SequentialCoding
  import opened Zigzag

  /** Buffered correction bits as they will be emitted. */
  function BitItems(bits: seq<nat>): (items: seq<Item>)
    ensures |items| == |bits|
  {
    seq(|bits|, i requires 0 <= i < |bits| => Raw(bits[i], 1))
  }

  lemma BitItemsAppend(a: seq<nat>, b: seq<nat>)
    ensures BitItems(a + b) == BitItems(a) + BitItems(b)
  {
  }

  class Coder {
    const bd: Band
    const refining: bool
    const restartInterval: nat
    const bitBuffer: array<nat>
    var eobrun: nat
    var be: nat
    var out: seq<Item>
    var segments: seq<seq<Item>>
    var markers: seq<nat>
    var restartsToGo: nat
    var nextRestartNum: nat
    ghost var coded: seq<Code>
    ghost var closed: seq<seq<Code>>

    /** The counters and the first BE entries of the bit buffer: the pending correction bits. */
    ghost function State(): Run
      reads `out, `eobrun, `be, bitBuffer
      requires be <= bitBuffer.Length
    {
      Run(out, eobrun, BitItems(bitBuffer[..be]))
    }

    ghost predicate Shaped()
      reads `be
    {
      bd.Ok() && bitBuffer.Length == MAX_CORR_BITS && be <= MAX_CORR_BITS
    }

    /** Between MCUs: the counters are within bounds, and the coder is where the blocks coded since
        the last restart have brought it; every closed segment is complete. */
    ghost predicate Valid()
      reads this, bitBuffer
    {
      Logged() && Marked(|closed|) &&
      if restartInterval > 0 then restartsToGo + |coded| == restartInterval && Full(closed) else closed == []
    }

    ghost predicate Logged()
      reads `out, `eobrun, `be, `segments, `coded, `closed, bitBuffer
    {
      Shaped() && RunOk(State()) && CodesOk(coded) && State() == RunOf(bd.tbl, coded, |coded|) &&
      ClosedOk(closed, segments) && (!refining ==> be == 0)
    }

    ghost predicate ClosedOk(closed: seq<seq<Code>>, segments: seq<seq<Item>>) {
      |segments| == |closed| &&
      forall i :: 0 <= i < |closed| ==> CodesOk(closed[i]) && segments[i] == Segment(bd.tbl, closed[i])
    }

    /** The restart markers sent so far count modulo eight. */
    predicate Marked(n: nat)
      reads `markers, `nextRestartNum
    {
      |markers| == n && nextRestartNum == n % 8 && forall i :: 0 <= i < n ==> markers[i] == RST0 + i % 8
    }

    /** Every closed segment has the blocks of one restart interval. */
    ghost predicate Full(closed: seq<seq<Code>>) {
      forall i :: 0 <= i < |closed| ==> |closed[i]| == restartInterval
    }

    /** start_pass_phuff. */
    constructor (bd: Band, refining: bool, restartInterval: nat)
      requires bd.Ok()
      ensures Valid() && fresh(bitBuffer) && this.bd == bd && this.refining == refining &&
              this.restartInterval == restartInterval
      ensures coded == [] && closed == [] && segments == []
    {
      this.bd, this.refining, this.restartInterval := bd, refining, restartInterval;
      bitBuffer := new nat[MAX_CORR_BITS];
      eobrun, be, out, segments, markers, restartsToGo, nextRestartNum := 0, 0, [], [], [], restartInterval, 0;
      coded, closed := [], [];
    }

    /** emit_buffered_bits. */
    method EmitBufferedBits(start: nat, n: nat)
      requires start + n <= bitBuffer.Length
      modifies `out
      ensures out == old(out) + BitItems(bitBuffer[start..start + n])
    {
      for i := 0 to n
        invariant out == old(out) + BitItems(bitBuffer[start..start + i])
      {
        BitItemsAppend(bitBuffer[start..start + i], [bitBuffer[start + i]]);
        assert bitBuffer[start..start + i + 1] == bitBuffer[start..start + i] + [bitBuffer[start + i]];
        out := out + [Raw(bitBuffer[start + i], 1)];
      }
    }

    /** emit_eobrun. */
    method EmitEobrun()
      requires Shaped() && (eobrun == 0 ==> be == 0)
      modifies `out, `eobrun, `be
      ensures Shaped() && eobrun == 0 && be == 0 && State() == Flush(bd.tbl, old(State()))
    {
      if eobrun > 0 {
        var temp: nat, nbits: nat := eobrun / 2, 0;
        while temp != 0
          invariant if temp == 0 then nbits == Below(eobrun) else nbits + 1 + Below(temp) == Below(eobrun)
        {
          nbits := nbits + 1;
          temp := temp / 2;
        }
        out := out + [Sym(AC, bd.tbl, nbits * 16)];
        if nbits != 0 { out := out + [Raw(eobrun, nbits)]; }
        RunItems(old(out), eobrun, nbits);
        eobrun := 0;
        EmitBufferedBits(0, be);
        be := 0;
      }
    }

    lemma RunItems(before: seq<Item>, n: nat, nbits: nat)
      requires n > 0 && nbits == Below(n)
      ensures before + EobItems(bd.tbl, n) ==
              before + [Sym(AC, bd.tbl, nbits * 16)] + (if nbits != 0 then [Raw(n, nbits)] else [])
    {
    }

    /** Where the coder stands inside a block it found in state `u0`, with the items `done` of it sent. */
    ghost predicate Inside(u0: Run, done: seq<Item>)
      reads this, bitBuffer
    {
      Shaped() && RunOk(u0) && State() == if done == [] then u0 else Run(Flush(bd.tbl, u0).out + done, 0, [])
    }

    /** The pending run, some items, and the correction bits that belong behind them. */
    method EmitBehind(items: seq<Item>, start: nat, br: nat, ghost u0: Run, ghost done: seq<Item>)
      requires Inside(u0, done) && start == be && start + br <= MAX_CORR_BITS && items != []
      modifies `out, `eobrun, `be
      ensures be == 0 && Inside(u0, done + items + BitItems(bitBuffer[start..start + br]))
    {
      ghost var bits := BitItems(bitBuffer[start..start + br]);
      EmitEobrun();
      assert out == Flush(bd.tbl, u0).out + done;
      out := out + items;
      EmitBufferedBits(start, br);
      assert out == Flush(bd.tbl, u0).out + (done + items + bits);
      assert BitItems(bitBuffer[..0]) == [];
    }

    /** encode_mcu_AC_first, the MCU's data block. */
    method BlockFirst(b: Block)
      requires Shaped() && RunOk(State()) && be == 0
      modifies `out, `eobrun, `be
      ensures Shaped() && State() == Step(bd.tbl, old(State()), FirstCode(bd, b))
    {
      ghost var z := Ranked(bd.o, b);
      ghost var u0, done, all := State(), [], FirstItems(bd, z, bd.ss, 0);
      var r := 0;
      for k := bd.ss to bd.se + 1
        invariant 0 <= r <= k && be == 0 && Inside(u0, done) && all == done + FirstItems(bd, z, k, r)
        invariant FirstZeros(bd, z, bd.ss, 0) == FirstZeros(bd, z, k, r)
      {
        var temp: int := b[bd.o[k]];
        var temp2 := 0;
        if temp < 0 {
          temp := Shr(-temp, bd.al);
          temp2 := -temp - 1;
        } else {
          temp := Shr(temp, bd.al);
          temp2 := temp;
        }
        if temp == 0 {
          r := r + 1;
        } else {
          done := CoefFirst(temp, temp2, r, k, z, all, u0, done);
          r := 0;
        }
      }
      assert all == done;
      EndBand(r > 0, 0, u0, Code(all, r > 0, []));
    }

    /** A nonzero coefficient behind `r` zeros. */
    method CoefFirst(temp: nat, temp2: int, r0: nat, ghost k: nat, ghost z: seq<int>, ghost all: seq<Item>,
        ghost u0: Run, ghost done0: seq<Item>)
      returns (ghost done: seq<Item>)
      requires be == 0 && Inside(u0, done0) && |z| == 64 && k <= bd.se && all == done0 + FirstItems(bd, z, k, r0)
      requires temp == Mag(z[k], bd.al) > 0 && temp2 == Extra(Shrunk(z[k], bd.al))
      modifies `out, `eobrun, `be
      ensures be == 0 && Inside(u0, done) && all == done + FirstItems(bd, z, k + 1, 0)
    {
      ghost var v := Shrunk(z[k], bd.al);
      ghost var rest := FirstItems(bd, z, k + 1, 0);
      var r;
      CoefSplit(done0, bd.tbl, r0, v, rest);
      r, done := SendZrls(r0, Coef(bd.tbl, r0 % 16, v) + rest, all, u0, done0);
      var nbits := CountBits(temp, 1);
      assert [Sym(AC, bd.tbl, r * 16 + nbits), Raw(temp2, nbits)] == Coef(bd.tbl, r, v);
      done := SendPlain([Sym(AC, bd.tbl, r * 16 + nbits), Raw(temp2, nbits)], rest, all, u0, done);
    }

    /** Run-length-16 codes. */
    method SendZrls(r0: nat, ghost rest: seq<Item>, ghost all: seq<Item>, ghost u0: Run, ghost done0: seq<Item>)
        returns (r: nat, ghost done: seq<Item>)
      requires be == 0 && Inside(u0, done0) && all == done0 + (Zrls(bd.tbl, r0 / 16) + rest)
      modifies `out, `eobrun, `be
      ensures be == 0 && Inside(u0, done) && all == done + rest && r == r0 % 16
    {
      r, done := r0, done0;
      while r > 15
        invariant be == 0 && Inside(u0, done) && r % 16 == r0 % 16 && all == done + (Zrls(bd.tbl, r / 16) + rest)
      {
        FirstZrl(bd.tbl, r, rest);
        done := SendPlain([Sym(AC, bd.tbl, 0xF0)], Zrls(bd.tbl, (r - 16) / 16) + rest, all, u0, done);
        r := r - 16;
      }
      NoZrls(bd.tbl, r, rest);
    }

    /** Items behind which no correction bits belong. */
    method SendPlain(items: seq<Item>, ghost rest: seq<Item>, ghost all: seq<Item>, ghost u0: Run,
        ghost done0: seq<Item>) returns (ghost done: seq<Item>)
      requires be == 0 && Inside(u0, done0) && items != [] && all == done0 + (items + rest)
      modifies `out, `eobrun, `be
      ensures be == 0 && Inside(u0, done) && all == done + rest
    {
      done := done0 + items;
      EmitBehind(items, 0, 0, u0, done0);
      NoBits(done0, items, bitBuffer[0..0]);
    }

    /** The end of the block: an end of band if anything is left, forced out if there is no room
        for another. */
    method EndBand(more: bool, br: nat, ghost u0: Run, ghost c: Code)
      requires Inside(u0, c.prefix) && c.hasTail == more && be + br <= MAX_CORR_BITS && (!more ==> c.tail == [])
      requires more ==> BitItems(bitBuffer[be..be + br]) == c.tail
      modifies `out, `eobrun, `be
      ensures Shaped() && State() == Step(bd.tbl, u0, c)
    {
      hide Flush, EobItems, Segment;
      if more {
        BitItemsAppend(bitBuffer[..be], bitBuffer[be..be + br]);
        assert bitBuffer[..be + br] == bitBuffer[..be] + bitBuffer[be..be + br];
        eobrun := eobrun + 1;
        be := be + br;
        if eobrun == MAX_EOBRUN || be > MAX_CORR_BITS - DCTSIZE2 + 1 { EmitEobrun(); }
      }
    }

    /** The pre-pass of encode_mcu_AC_refine: magnitudes, and the last newly nonzero rank. */
    method Prepass(b: Block) returns (absvalues: array<nat>, eob: nat)
      requires bd.Ok()
      ensures fresh(absvalues) && absvalues.Length == DCTSIZE2 && eob == LastNew(bd, Ranked(bd.o, b), bd.se + 1)
      ensures forall k :: bd.ss <= k <= bd.se ==> absvalues[k] == Mag(Ranked(bd.o, b)[k], bd.al)
    {
      absvalues := new nat[DCTSIZE2];
      eob := 0;
      for k := bd.ss to bd.se + 1
        invariant eob == LastNew(bd, Ranked(bd.o, b), k)
        invariant forall j :: bd.ss <= j < k ==> absvalues[j] == Mag(Ranked(bd.o, b)[j], bd.al)
      {
        var temp: int := b[bd.o[k]];
        if temp < 0 { temp := -temp; }
        temp := Shr(temp, bd.al);
        absvalues[k] := temp;
        if temp == 1 { eob := k; }
      }
    }

    /** encode_mcu_AC_refine has come to rank `k`, with `br` correction bits of this block in the
        buffer behind those of earlier blocks. */
    ghost predicate Refining(z: seq<int>, eob: nat, k: nat, r: nat, br: nat, all: seq<Item>, u0: Run, done: seq<Item>)
      reads this, bitBuffer
    {
      Inside(u0, done) && |z| == 64 && eob < 64 && br + bd.ss <= k <= 64 && be <= MAX_CORR_BITS - DCTSIZE2 + 1 &&
      (var pending := BitItems(bitBuffer[be..be + br]);
       all == done + RefineItems(bd, z, eob, k, r, pending) &&
       (k > eob ==> TailStart(bd, eob) <= k && pending == Corrections(bd, z, TailStart(bd, eob), k) &&
                    (r > 0 || br > 0 <==> k > TailStart(bd, eob))))
    }

    lemma RefiningStarts(z: seq<int>, eob: nat, u0: Run)
      requires Shaped() && RunOk(State()) && u0 == State() && |z| == 64 && eob == LastNew(bd, z, bd.se + 1)
      ensures Refining(z, eob, bd.ss, 0, 0, RefineItems(bd, z, eob, bd.ss, 0, []), u0, [])
    {
      hide Flush, RefineItems, Mag, Shr, EobItems;
      var all := RefineItems(bd, z, eob, bd.ss, 0, []);
      assert BitItems(bitBuffer[be..be]) == [] && [] + all == all;
    }

    /** What is left at the end of the band is the tail of the block's code. */
    lemma RefiningEnds(b: Block, eob: nat, r: nat, br: nat, all: seq<Item>, u0: Run, done: seq<Item>)
      requires bd.Ok() && eob == LastNew(bd, Ranked(bd.o, b), bd.se + 1) &&
               all == RefineItems(bd, Ranked(bd.o, b), eob, bd.ss, 0, [])
      requires Refining(Ranked(bd.o, b), eob, bd.se + 1, r, br, all, u0, done)
      ensures Inside(u0, all) && be + br <= MAX_CORR_BITS
      ensures var more := r > 0 || br > 0;
              RefineCode(bd, b) == Code(all, more, if more then BitItems(bitBuffer[be..be + br]) else [])
    {
      hide Flush, Mag, Shr, EobItems, Inside, Corrections;
      assert done + [] == done;
    }

    /** encode_mcu_AC_refine, the MCU's data block. */
    method BlockRefine(b: Block)
      requires Shaped() && RunOk(State())
      modifies `out, `eobrun, `be, bitBuffer
      ensures Shaped() && State() == Step(bd.tbl, old(State()), RefineCode(bd, b))
    {
      hide Flush, EobItems, Reorders, Step, LastNew, RefineItems, Mag, Shr, RunOk, Refining, Inside, RefineCode,
           BitItems;
      ghost var z := Ranked(bd.o, b);
      var absvalues, eob := Prepass(b);
      ghost var u0, done, all := State(), [], RefineItems(bd, z, eob, bd.ss, 0, []);
      var r, br, k := 0, 0, bd.ss;
      RefiningStarts(z, eob, u0);
      while k <= bd.se
        invariant Refining(z, eob, k, r, br, all, u0, done) && k <= bd.se + 1
        invariant forall j :: bd.ss <= j <= bd.se ==> absvalues[j] == Mag(z[j], bd.al)
        decreases bd.se + 1 - k
      {
        r, br, done := RefineTurn(absvalues[k], b[bd.o[k]], eob, k, r, br, z, all, u0, done);
        k := k + 1;
      }
      RefiningEnds(b, eob, r, br, all, u0, done);
      EndBand(r > 0 || br > 0, br, u0, RefineCode(bd, b));
    }

    /** One rank. */
    method RefineTurn(temp: nat, coef: int, eob: nat, k: nat, r0: nat, br0: nat, ghost z: seq<int>,
        ghost all: seq<Item>, ghost u0: Run, ghost done0: seq<Item>)
      returns (r: nat, br: nat, ghost done: seq<Item>)
      requires k <= bd.se && Refining(z, eob, k, r0, br0, all, u0, done0) && coef == z[k] && temp == Mag(coef, bd.al) &&
               eob == LastNew(bd, z, bd.se + 1)
      modifies `out, `eobrun, `be, bitBuffer
      ensures Refining(z, eob, k + 1, r, br, all, u0, done)
    {
      hide Flush, EobItems, Reorders, RunOk, Shr;
      r, br, done := r0, br0, done0;
      if temp == 0 {
        r := r + 1;
        return;
      }
      r, br, done := SendZrlBits(eob, k, r, br, z, all, u0, done);
      if temp > 1 {
        KeepBit(temp, eob, k, r, br, z, all, u0, done);
        br := br + 1;
        return;
      }
      done := SendBits([Sym(AC, bd.tbl, r * 16 + 1), Raw(if coef < 0 then 0 else 1, 1)], br, all,
          RefineItems(bd, z, eob, k + 1, 0, []), u0, done);
      br, r := 0, 0;
    }

    /** A coefficient nonzero before needs only its correction bit. */
    method KeepBit(temp: nat, eob: nat, k: nat, r: nat, br: nat, ghost z: seq<int>, ghost all: seq<Item>,
        ghost u0: Run, ghost done: seq<Item>)
      requires k <= bd.se && Refining(z, eob, k, r, br, all, u0, done) && temp == Mag(z[k], bd.al) > 1 &&
               (k <= eob ==> r <= 15)
      requires eob != 0 ==> Mag(z[eob], bd.al) == 1
      modifies bitBuffer
      ensures Refining(z, eob, k + 1, r, br + 1, all, u0, done)
    {
      hide Flush, Shr, RunOk, Reorders;
      AddBit(temp % 2, br);
    }

    /** Run-length-16 codes, unless they can be folded into the end of the band. */
    method SendZrlBits(eob: nat, k: nat, r0: nat, br0: nat, ghost z: seq<int>, ghost all: seq<Item>, ghost u0: Run,
        ghost done0: seq<Item>)
      returns (r: nat, br: nat, ghost done: seq<Item>)
      requires k <= bd.se && Refining(z, eob, k, r0, br0, all, u0, done0) && Mag(z[k], bd.al) != 0
      modifies `out, `eobrun, `be
      ensures Refining(z, eob, k, r, br, all, u0, done) && (k <= eob ==> r <= 15)
    {
      r, br, done := r0, br0, done0;
      while r > 15 && k <= eob
        invariant Refining(z, eob, k, r, br, all, u0, done)
        decreases r
      {
        done := SendBits([Sym(AC, bd.tbl, 0xF0)], br, all, RefineItems(bd, z, eob, k, r - 16, []), u0, done);
        r := r - 16;
        br := 0;
      }
    }

    /** Send items and the block's buffered bits behind them; the buffer is empty afterwards. */
    method SendBits(items: seq<Item>, br: nat, ghost all: seq<Item>, ghost rest: seq<Item>, ghost u0: Run,
        ghost done0: seq<Item>)
      returns (ghost done: seq<Item>)
      requires Inside(u0, done0) && be + br <= MAX_CORR_BITS && items != []
      requires all == done0 + (items + BitItems(bitBuffer[be..be + br]) + rest)
      modifies `out, `eobrun, `be
      ensures be == 0 && Inside(u0, done) && all == done + rest && BitItems(bitBuffer[be..be]) == []
    {
      ghost var bits := BitItems(bitBuffer[be..be + br]);
      done := done0 + items + bits;
      Reassociate(done0, items, bits, rest);
      EmitBehind(items, be, br, u0, done0);
    }

    /** Buffer one more correction bit. */
    method AddBit(bit: nat, br: nat)
      requires Shaped() && be + br < MAX_CORR_BITS
      modifies bitBuffer
      ensures BitItems(bitBuffer[be..be + br + 1]) == old(BitItems(bitBuffer[be..be + br])) + [Raw(bit, 1)]
      ensures bitBuffer[..be] == old(bitBuffer[..be])
    {
      ghost var before := bitBuffer[be..be + br];
      bitBuffer[be + br] := bit;
      assert bitBuffer[be..be + br + 1] == before + [bit];
      BitItemsAppend(before, [bit]);
    }

    /** emit_restart: the segment is completed and everything starts afresh. */
    method EmitRestart(restartNum: nat)
      requires Shaped() && (eobrun == 0 ==> be == 0)
      modifies `out, `eobrun, `be, `segments, `markers
      ensures Shaped() && State() == FRESH && be == 0
      ensures segments == old(segments) + [Flush(bd.tbl, old(State())).out] &&
              markers == old(markers) + [RST0 + restartNum]
    {
      EmitEobrun();
      segments := segments + [out];
      markers := markers + [RST0 + restartNum];
      out := [];
      eobrun, be := 0, 0;
    }

    /** encode_mcu_AC_first and encode_mcu_AC_refine. */
    method EncodeMcu(b: Block)
      requires Valid()
      modifies this, bitBuffer
      ensures Valid()
      ensures if restartInterval > 0 && old(restartsToGo) == 0
              then closed == old(closed) + [old(coded)] && coded == [CodeOf(b)]
              else closed == old(closed) && coded == old(coded) + [CodeOf(b)]
    {
      hide Coder.Logged, CodeOf, Step, RunOk;
      if restartInterval != 0 && restartsToGo == 0 { NextSegment(nextRestartNum); }
      EncodeBlock(b);
      CountMcu();
    }

    /** The restart counters, at the end of an MCU. */
    method CountMcu()
      modifies `restartsToGo, `nextRestartNum
      ensures restartInterval == 0 ==> restartsToGo == old(restartsToGo) && nextRestartNum == old(nextRestartNum)
      ensures restartInterval > 0 ==>
                restartsToGo == (if old(restartsToGo) == 0 then restartInterval else old(restartsToGo)) - 1
      ensures restartInterval > 0 ==>
                nextRestartNum == if old(restartsToGo) == 0 then (old(nextRestartNum) + 1) % 8 else old(nextRestartNum)
    {
      if restartInterval != 0 {
        if restartsToGo == 0 {
          restartsToGo := restartInterval;
          nextRestartNum := (nextRestartNum + 1) % 8;
        }
        restartsToGo := restartsToGo - 1;
      }
    }

    method NextSegment(restartNum: nat)
      requires Logged()
      modifies this
      ensures Logged() && closed == old(closed) + [old(coded)] && coded == [] &&
              markers == old(markers) + [RST0 + restartNum]
      ensures nextRestartNum == old(nextRestartNum) && restartsToGo == old(restartsToGo)
    {
      EmitRestart(restartNum);
      closed := closed + [coded];
      coded := [];
    }

    method EncodeBlock(b: Block)
      requires Logged()
      modifies `out, `eobrun, `be, `coded, bitBuffer
      ensures Logged() && coded == old(coded) + [CodeOf(b)]
    {
      hide RunOf, Step, FirstCode, RefineCode, Segment, Flush, CodeOk;
      if refining { BlockRefine(b); } else { BlockFirst(b); }
      if !refining { FirstNoBits(old(State()), b); }
      OneMore(coded, b);
      coded := coded + [CodeOf(b)];
    }

    lemma FirstNoBits(u: Run, b: Block)
      requires bd.Ok() && u.corr == []
      ensures Step(bd.tbl, u, FirstCode(bd, b)).corr == []
    {
      StepNoBits(bd.tbl, u, FirstCode(bd, b));
    }

    lemma OneMore(before: seq<Code>, b: Block)
      requires bd.Ok() && CodesOk(before)
      ensures CodesOk(before + [CodeOf(b)])
      ensures RunOf(bd.tbl, before + [CodeOf(b)], |before| + 1) == Step(bd.tbl, RunOf(bd.tbl, before, |before|),
                CodeOf(b))
    {
      BlockCodeOk(bd, refining, b);
      RunPrefix(bd.tbl, before, before + [CodeOf(b)], |before|);
    }

    /** finish_pass_phuff: the last segment is complete. */
    method FinishPass()
      requires Valid()
      modifies `out, `eobrun, `be
      ensures out == Segment(bd.tbl, coded) && eobrun == 0 && be == 0
    {
      EmitEobrun();
    }

    ghost function CodeOf(b: Block): Code
      requires bd.Ok()
    {
      BlockCode(bd, refining, b)
    }
  }

  lemma NoBits(done: seq<Item>, items: seq<Item>, none: seq<nat>)
    requires none == []
    ensures done + items + BitItems(none) == done + items
  {
  }

  lemma Reassociate(a: seq<Item>, b: seq<Item>, c: seq<Item>, d: seq<Item>)
    ensures a + (b + c + d) == a + b + c + d
  {
  }

  lemma CoefSplit(done: seq<Item>, tbl: nat, r: nat, v: int, rest: seq<Item>)
    ensures done + (Zrls(tbl, r / 16) + Coef(tbl, r % 16, v) + rest) == done +
              (Zrls(tbl, r / 16) + (Coef(tbl, r % 16, v) + rest))
  {
  }
}
