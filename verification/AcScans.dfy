/**
 * Whole progressive AC scans (jcphuff.c, jdphuff.c): a segment is decoded block by block while its
 * runs of ended bands reach ahead, and a succession of scans delivers the coefficients exactly.
 */
module AcScans {
  import opened Bits
  import opened BitReader
  import opened DerivedTables
  import opened EntropySpec
  import opened EobRuns
  import opened AcBand
  import opened AcDecoder
  import opened AcReading
  import opened AcRoundTrip
  import opened HuffmanCodes
  import opened HuffDecoder
  import opened RoundTrip
  import opened Zigzag
  import AcCoder

  // ---- one block

  ghost function ReadBand(h: HuffTable, bd: Band, refining: bool, st: Bits, p: nat, eobrun: nat, b0: Block): BandRead
    requires h.WellFormed() && bd.Ok()
  {
    if refining then RefineMcu(h, bd, st, p, eobrun, b0) else FirstMcu(h, bd, st, p, eobrun, b0)
  }

  /** `b0` is what earlier scans have made of `b`. */
  predicate Expecting(bd: Band, refining: bool, b: Block, b0: Block)
    requires bd.Ok()
  {
    Short(Ranked(bd.o, b)) && if refining then Prior(bd, Ranked(bd.o, b), b0) else Cleared(bd, b0)
  }

  /** This scan makes `b'` of it: the band at precision `al`, everything else as it was. */
  predicate Received(bd: Band, b: Block, b0: Block, b': Block)
    requires bd.Ok()
  {
    Holds(bd, Ranked(bd.o, b), b0, bd.se + 1, b')
  }

  /** The items of a block that opens a run of `m` further bands, or none. */
  function BlockItems(tbl: nat, c: Code, m: nat): seq<Item> {
    if c.hasTail then c.prefix + EobItems(tbl, 1 + m) + c.tail else c.prefix
  }

  lemma FirstBlockReads(hs: HuffTables, t: CTables, bd: Band, b: Block, b0: Block, m: nat, st: Bits, p: nat, q: nat)
      returns (b': Block)
    requires Matches(hs, t) && bd.Ok() && Expecting(bd, false, b, b0) && m < MAX_EOBRUN
    requires Sent(t, BlockItems(bd.tbl, FirstCode(bd, b), m), st, p, q)
    ensures FirstMcu(hs.Ac(bd.tbl), bd, st, p, 0, b0) == BandRead(b', q, if FirstCode(bd, b).hasTail then m else 0)
    ensures Received(bd, b, b0, b')
  {
    hide Sent, SentFirst, SentOne, ReadSymbol, RunLength, EobItems, FirstItems, FirstZeros, Shr, ReadFirst;
    var z, c := Ranked(bd.o, b), FirstCode(bd, b);
    assert c.prefix + [] == c.prefix;
    assert c.prefix + EobItems(bd.tbl, 1 + m) + c.tail == c.prefix + EobItems(bd.tbl, 1 + m);
    var q1 := SentSplit(t, c.prefix, if c.hasTail then EobItems(bd.tbl, 1 + m) else [], st, p, q);
    var k1;
    k1, b' := FirstReads(hs, t, bd, z, b0, bd.ss, 0, st, p, q1, b0);
    if c.hasTail {
      EobReads(hs, t, bd.tbl, 1 + m, st, q1, q);
      var sym := ReadSymbol(hs.Ac(bd.tbl), st, q1);
      FirstOn(hs.Ac(bd.tbl), bd, st, q1, k1, b', sym.0, q1 + sym.1);
    } else {
      NoneSent(t, st, q1, q);
      FirstOver(hs.Ac(bd.tbl), bd, st, q, k1, b');
    }
  }

  lemma {:induction false} NothingFirst(bd: Band, z: seq<int>, k: nat, r: nat)
    requires |z| == 64 && bd.se < 64 && FirstItems(bd, z, k, r) == []
    ensures forall j :: k <= j <= bd.se ==> Shrunk(z[j], bd.al) == 0
    decreases 64 - k
  {
    hide Shrunk;
    if k <= bd.se { NothingFirst(bd, z, k + 1, r + 1); }
  }

  /** A block inside a run: nothing for a first pass, correction bits for a refinement. */
  lemma FirstInRun(bd: Band, b: Block, b0: Block)
    requires bd.Ok() && Expecting(bd, false, b, b0) && FirstCode(bd, b).prefix == []
    ensures Received(bd, b, b0, b0)
  {
    NothingFirst(bd, Ranked(bd.o, b), bd.ss, 0);
  }

  lemma RefineBlockReads(hs: HuffTables, t: CTables, bd: Band, b: Block, b0: Block, m: nat, st: Bits, p: nat, q: nat)
      returns (b': Block)
    requires Matches(hs, t) && bd.Ok() && Expecting(bd, true, b, b0) && m < MAX_EOBRUN
    requires Sent(t, BlockItems(bd.tbl, RefineCode(bd, b), m), st, p, q)
    ensures RefineMcu(hs.Ac(bd.tbl), bd, st, p, 0, b0) == BandRead(b', q, if RefineCode(bd, b).hasTail then m else 0)
    ensures Received(bd, b, b0, b')
  {
    hide Sent, SentFirst, SentOne, ReadSymbol, RunLength, EobItems, RefineItems, Corrections, Finish, Shr, LastNew,
         Halfway, NoneBecomes, Prior, ReadRefine, Holds;
    var z, c := Ranked(bd.o, b), RefineCode(bd, b);
    var eob := LastNew(bd, z, bd.se + 1);
    assert c.prefix + [] == c.prefix;
    assert c.prefix + EobItems(bd.tbl, 1 + m) + c.tail == c.prefix + (EobItems(bd.tbl, 1 + m) + c.tail);
    var q1 := SentSplit(t, c.prefix, if c.hasTail then EobItems(bd.tbl, 1 + m) + c.tail else [], st, p, q);
    var k1, b1 := RefineFromStart(hs, t, bd, z, b0, eob, st, p, q1);
    if c.hasTail {
      var q2 := SentSplit(t, EobItems(bd.tbl, 1 + m), c.tail, st, q1, q);
      EobReads(hs, t, bd.tbl, 1 + m, st, q1, q2);
      RefineStops(hs.Ac(bd.tbl), bd, st, q1, k1, b1, q2, 1 + m);
      b' := FinishFrom(t, bd, z, b0, k1, st, q2, q, b1);
    } else {
      NoneSent(t, st, q1, q);
      RefineOver(hs.Ac(bd.tbl), bd, z, b0, st, q, k1, b1);
      b' := b1;
    }
  }

  lemma RefineFromStart(hs: HuffTables, t: CTables, bd: Band, z: seq<int>, b0: Block, eob: nat, st: Bits, p: nat,
      q: nat) returns (k1: nat, b': Block)
    requires Matches(hs, t) && bd.Ok() && |z| == 64 && Short(z) && Prior(bd, z, b0) && eob == LastNew(bd, z, bd.se + 1)
    requires Sent(t, RefineItems(bd, z, eob, bd.ss, 0, []), st, p, q)
    ensures k1 == TailStart(bd, eob) <= bd.se + 1 && Halfway(bd, z, b0, k1, b') && NoneBecomes(bd, z, k1, bd.se + 1)
    ensures ReadRefine(hs.Ac(bd.tbl), bd, st, p, bd.ss, b0) == ReadRefine(hs.Ac(bd.tbl), bd, st, q, k1, b')
  {
    hide Sent, SentFirst, SentOne, RefineItems, Shr, ReadRefine;
    k1, b' := RefineReads(hs, t, bd, z, b0, eob, bd.ss, bd.ss, st, p, q, b0);
  }

  lemma RefineStops(h: HuffTable, bd: Band, st: Bits, p: nat, k: nat, b: Block, q: nat, n: nat)
    requires h.WellFormed() && bd.Ok() && k <= bd.se
    requires var sym := ReadSymbol(h, st, p);
             sym.0 % 16 == 0 && sym.0 / 16 <= 14 && q == p + sym.1 + sym.0 / 16 &&
             RunLength(st, p + sym.1, sym.0 / 16) == n
    ensures ReadRefine(h, bd, st, p, k, b) == RefineRead(b, k, q, n)
  {
  }

  lemma RefineOver(h: HuffTable, bd: Band, z: seq<int>, b0: Block, st: Bits, p: nat, k: nat, b: Block)
    requires h.WellFormed() && bd.Ok() && k == bd.se + 1 && Halfway(bd, z, b0, k, b)
    ensures ReadRefine(h, bd, st, p, k, b) == RefineRead(b, k, p, 0) && Holds(bd, z, b0, bd.se + 1, b)
  {
  }

  lemma FinishFrom(t: CTables, bd: Band, z: seq<int>, b0: Block, k: nat, st: Bits, p: nat, q: nat, b: Block)
      returns (b': Block)
    requires t.Valid() && bd.Ok() && |z| == 64 && bd.ss <= k <= bd.se + 1 && Halfway(bd, z, b0, k, b) &&
             NoneBecomes(bd, z, k, bd.se + 1)
    requires Sent(t, Corrections(bd, z, k, bd.se + 1), st, p, q)
    ensures Finish(bd, st, p, k, b) == Finished(b', q) && Holds(bd, z, b0, bd.se + 1, b')
  {
    b' := FinishReads(t, bd, z, b0, k, bd.se + 1, st, p, q, b);
  }

  lemma RefineInRun(t: CTables, bd: Band, b: Block, b0: Block, st: Bits, p: nat, q: nat) returns (b': Block)
    requires t.Valid() && bd.Ok() && Expecting(bd, true, b, b0) && RefineCode(bd, b).prefix == [] &&
             Sent(t, RefineCode(bd, b).tail, st, p, q)
    ensures Finish(bd, st, p, bd.ss, b0) == Finished(b', q) && Received(bd, b, b0, b')
  {
    hide Sent, RefineItems, Corrections, Finish, Shr, LastNew;
    var z := Ranked(bd.o, b);
    var eob := LastNew(bd, z, bd.se + 1);
    if eob != 0 { RefineSomething(bd, z, eob, bd.ss, 0, []); }
    b' := FinishFrom(t, bd, z, b0, bd.ss, st, p, q, b0);
  }

  // ---- a segment

  /** The decoder stands at `p` before block `i`, with `d` ended bands to come; the rest of the
      segment lies ahead up to `e`. */
  ghost predicate Tracking(t: CTables, tbl: nat, codes: seq<Code>, i: nat, d: nat, st: Bits, p: nat, e: nat) {
    t.Valid() && CodesOk(codes) && i + d <= |codes| && OnlyTails(codes, i, i + d) &&
    Sent(t, Left(tbl, codes, i, d), st, p, e)
  }

  lemma OpenBlock(t: CTables, tbl: nat, codes: seq<Code>, i: nat, st: Bits, p: nat, e: nat) returns (m: nat, q: nat)
    requires Tracking(t, tbl, codes, i, 0, st, p, e) && i < |codes|
    ensures m < MAX_EOBRUN && Sent(t, BlockItems(tbl, codes[i], m), st, p, q)
    ensures Tracking(t, tbl, codes, i + 1, if codes[i].hasTail then m else 0, st, q, e)
  {
    hide Sent, Left, EobItems;
    m := BlockFollows(tbl, codes, i);
    if codes[i].hasTail {
      q := SentSplit(t, BlockItems(tbl, codes[i], m), Left(tbl, codes, i + 1, m), st, p, e);
    } else {
      m := 0;
      q := SentSplit(t, codes[i].prefix, Left(tbl, codes, i + 1, 0), st, p, e);
    }
  }

  /** One block brings the decoder to the next, and the block to this scan's precision. */
  lemma NextBlock(hs: HuffTables, t: CTables, bd: Band, refining: bool, blocks: seq<Block>, i: nat, d: nat,
      b0: Block, st: Bits, p: nat, e: nat)
    requires Matches(hs, t) && bd.Ok() && i < |blocks| &&
             Tracking(t, bd.tbl, Codes(bd, refining, blocks), i, d, st, p, e)
    requires Expecting(bd, refining, blocks[i], b0)
    ensures var r := ReadBand(hs.Ac(bd.tbl), bd, refining, st, p, d, b0);
            Received(bd, blocks[i], b0, r.block) && Tracking(t, bd.tbl, Codes(bd, refining, blocks), i + 1, r.eobrun,
                st, r.pos, e)
  {
    hide Sent, Left, Expecting, Received, FirstCode, RefineCode, ReadFirst, ReadRefine, Finish;
    var codes := Codes(bd, refining, blocks);
    if d == 0 {
      var m, q := OpenBlock(t, bd.tbl, codes, i, st, p, e);
      if refining {
        var b' := RefineBlockReads(hs, t, bd, blocks[i], b0, m, st, p, q);
      } else {
        var b' := FirstBlockReads(hs, t, bd, blocks[i], b0, m, st, p, q);
      }
    } else {
      RunFollows(bd.tbl, codes, i, d);
      var q := SentSplit(t, codes[i].tail, Left(bd.tbl, codes, i + 1, d - 1), st, p, e);
      if refining {
        var b' := RefineInRun(t, bd, blocks[i], b0, st, p, q);
      } else {
        FirstInRun(bd, blocks[i], b0);
        NoFirstTail(t, bd, blocks[i], st, p, q);
      }
    }
  }

  lemma NoFirstTail(t: CTables, bd: Band, b: Block, st: Bits, p: nat, q: nat)
    requires t.Valid() && bd.Ok() && Sent(t, FirstCode(bd, b).tail, st, p, q)
    ensures p == q
  {
    NoneSent(t, st, p, q);
  }

  lemma TrackingStart(t: CTables, tbl: nat, codes: seq<Code>, st: Bits, p: nat, e: nat)
    requires t.Valid() && CodesOk(codes) && Sent(t, Segment(tbl, codes), st, p, e)
    ensures Tracking(t, tbl, codes, 0, 0, st, p, e)
  {
    hide Sent, Segment, Left;
    SegmentIsLeft(tbl, codes);
  }

  /** The decode_mcu method the scan calls for. */
  method DecodeMcu(r: Reader, h: HuffTable, d: DTable, bd: Band, refining: bool, eobrun: nat, b0: Block,
      ghost st: Bits, ghost p: nat)
    returns (ok: bool, b: Block, eobrun': nat, r': Reader, ghost q: nat)
    requires h.Valid() && DDerived(h, d) && bd.Ok() && At(r, st, p)
    ensures !ok ==>
              !r.Supplied() &&
              (SpareLast(bd.o) ==>
                 ReadBand(h, bd, refining, st, p, eobrun, b) == ReadBand(h, bd, refining, st, p, eobrun, b0))
    ensures ok ==>
              Refilled(r, r') && At(r', st, q) &&
              BandRead(b, q, eobrun') == ReadBand(h, bd, refining, st, p, eobrun, b0)
  {
    q := ReadBand(h, bd, refining, st, p, eobrun, b0).pos;
    if refining {
      ok, b, eobrun', r' := DecodeRefine(r, h, d, bd, eobrun, b0, st, p);
    } else {
      ok, b, eobrun', r' := DecodeFirst(r, h, d, bd, eobrun, b0, st, p);
    }
  }

  // ---- coding

  /** The segments of a scan: one for each restart interval. */
  function SegmentsOf(tbl: nat, codes: seq<Code>, interval: nat): (segs: seq<seq<Item>>)
    requires CodesOk(codes)
    ensures |segs| > 0
  {
    if interval == 0 || |codes| <= interval then [Segment(tbl, codes)]
    else [Segment(tbl, codes[..interval])] + SegmentsOf(tbl, codes[interval..], interval)
  }

  /** `all` is the closed segments in order, then the open one. */
  ghost predicate Chained(closed: seq<seq<Code>>, coded: seq<Code>, all: seq<Code>, interval: nat)
    decreases |closed|
  {
    if closed == [] then coded == all && (interval > 0 ==> |coded| <= interval)
    else
      interval == |closed[0]| < |all| && all[..interval] == closed[0] &&
      Chained(closed[1..], coded, all[interval..], interval)
  }

  lemma {:induction false} ChainedMore(closed: seq<seq<Code>>, coded: seq<Code>, all: seq<Code>, interval: nat, c: Code)
    requires Chained(closed, coded, all, interval) && (interval > 0 ==> |coded| < interval)
    ensures Chained(closed, coded + [c], all + [c], interval)
    decreases |closed|
  {
    if closed != [] {
      ChainedMore(closed[1..], coded, all[interval..], interval, c);
      assert (all + [c])[interval..] == all[interval..] + [c] && (all + [c])[..interval] == all[..interval];
    }
  }

  lemma {:induction false} ChainedClose(closed: seq<seq<Code>>, coded: seq<Code>, all: seq<Code>, interval: nat,
      c: Code)
    requires Chained(closed, coded, all, interval) && |coded| == interval > 0
    ensures Chained(closed + [coded], [c], all + [c], interval)
    decreases |closed|
  {
    if closed == [] {
      assert (closed + [coded])[1..] == [] && (all + [c])[interval..] == [c] && (all + [c])[..interval] == coded;
    } else {
      ChainedClose(closed[1..], coded, all[interval..], interval, c);
      assert (closed + [coded])[1..] == closed[1..] + [coded];
      assert (all + [c])[interval..] == all[interval..] + [c] && (all + [c])[..interval] == all[..interval];
    }
  }

  lemma {:induction false} ChainedSegments(tbl: nat, closed: seq<seq<Code>>, coded: seq<Code>, all: seq<Code>,
      interval: nat, segs: seq<seq<Item>>)
    requires CodesOk(all) && CodesOk(coded) && Chained(closed, coded, all, interval) && |segs| == |closed|
    requires forall i :: 0 <= i < |closed| ==> CodesOk(closed[i]) && segs[i] == Segment(tbl, closed[i])
    requires closed != [] ==> interval > 0
    ensures SegmentsOf(tbl, all, interval) == segs + [Segment(tbl, coded)]
    decreases |closed|
  {
    if closed == [] {
      assert segs + [Segment(tbl, coded)] == [Segment(tbl, coded)];
    } else {
      ChainedSegments(tbl, closed[1..], coded, all[interval..], interval, segs[1..]);
      assert segs + [Segment(tbl, coded)] == [segs[0]] + (segs[1..] + [Segment(tbl, coded)]);
    }
  }

  /** The coder has coded the first `n` blocks. */
  ghost predicate CodedTo(c: AcCoder.Coder, bd: Band, refining: bool, interval: nat, blocks: seq<Block>, n: nat)
    reads c, c.bitBuffer
  {
    c.Valid() && c.bd == bd && c.refining == refining && c.restartInterval == interval && n <= |blocks| &&
    Chained(c.closed, c.coded, Codes(bd, refining, blocks)[..n], interval)
  }

  method CodeBlock(c: AcCoder.Coder, bd: Band, refining: bool, interval: nat, blocks: seq<Block>, n: nat)
    requires CodedTo(c, bd, refining, interval, blocks, n) && n < |blocks|
    modifies c, c.bitBuffer
    ensures CodedTo(c, bd, refining, interval, blocks, n + 1)
  {
    hide RunOf, Segment, RunOk, CodesOk, BlockCode, Chained;
    ghost var x := Codes(bd, refining, blocks)[n];
    ghost var before := Codes(bd, refining, blocks)[..n];
    assert x == BlockCode(bd, refining, blocks[n]);
    ghost var after := Codes(bd, refining, blocks)[..n + 1];
    assert after == before + [x];
    if interval > 0 && c.restartsToGo == 0 {
      ChainedClose(c.closed, c.coded, before, interval, x);
    } else {
      ChainedMore(c.closed, c.coded, before, interval, x);
    }
    c.EncodeMcu(blocks[n]);
  }

  /** Code a whole scan. */
  method EncodeScan(bd: Band, refining: bool, interval: nat, blocks: seq<Block>)
      returns (segs: seq<seq<Item>>, markers: seq<nat>)
    requires bd.Ok()
    ensures segs == SegmentsOf(bd.tbl, Codes(bd, refining, blocks), interval)
    ensures |markers| == |segs| - 1 && forall i :: 0 <= i < |markers| ==> markers[i] == 0xD0 + i % 8
  {
    hide SegmentsOf, Segment, Codes;
    var c := new AcCoder.Coder(bd, refining, interval);
    for n := 0 to |blocks|
      invariant fresh(c) && fresh(c.bitBuffer) && CodedTo(c, bd, refining, interval, blocks, n)
    {
      CodeBlock(c, bd, refining, interval, blocks, n);
    }
    segs, markers := FinishScan(c, bd, refining, interval, blocks);
  }

  method FinishScan(c: AcCoder.Coder, bd: Band, refining: bool, interval: nat, blocks: seq<Block>)
      returns (segs: seq<seq<Item>>, markers: seq<nat>)
    requires bd.Ok() && CodedTo(c, bd, refining, interval, blocks, |blocks|)
    modifies c
    ensures segs == SegmentsOf(bd.tbl, Codes(bd, refining, blocks), interval)
    ensures |markers| == |segs| - 1 && forall i :: 0 <= i < |markers| ==> markers[i] == 0xD0 + i % 8
  {
    hide RunOf, Segment, RunOk, CodesOk, BlockCode, Chained, SegmentsOf;
    ghost var codes := Codes(bd, refining, blocks);
    assert codes[..|blocks|] == codes;
    ChainedSegments(bd.tbl, c.closed, c.coded, codes, interval, c.segments);
    c.FinishPass();
    segs, markers := c.segments + [c.out], c.markers;
  }
}
