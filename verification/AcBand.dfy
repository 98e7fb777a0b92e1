/**
 * What a block contributes to a progressive scan of AC coefficients: a first pass sends a band at
 * precision Al (ITU-T T.81, G.1.2.2), a refinement pass one more bit of it (G.1.2.3).
 */
module AcBand {
  import opened Bits
  import opened EntropySpec
  import opened EobRuns
  import opened Zigzag

  /** The parameters of a scan: a table, ranks ss .. se, and the bits left for later scans. */
  datatype Band = Band(tbl: nat, o: Order, ss: nat, se: nat, al: nat) {
    predicate Ok() {
      tbl < NUM_TBLS && Reorders(o) && 1 <= ss <= se < 64 && al <= 13
    }
  }

  /** A right shift. */
  function Shr(a: nat, n: nat): nat {
    if n == 0 then a else Shr(a, n - 1) / 2
  }

  /** The point transform rounds towards zero; this is the magnitude that is left ... */
  function Mag(v: int, al: nat): nat {
    Shr(if v < 0 then -v else v, al)
  }

  /** ... the value it stands for ... */
  function Shrunk(v: int, al: nat): int {
    var m: int := Mag(v, al);
    if v < 0 then -m else m
  }

  /** ... and the coefficient a decoder has once bits `al` and above have been sent. */
  function Point(v: int, al: nat): int {
    Shrunk(v, al) * Pow2(al)
  }

  lemma {:induction false} ShrIs(a: nat, n: nat)
    ensures Shr(a, n) * Pow2(n) <= a < Shr(a, n) * Pow2(n) + Pow2(n)
  {
    if n > 0 {
      ShrIs(a, n - 1);
      HalfTimes(a, Shr(a, n - 1), Pow2(n - 1));
    }
  }

  lemma HalfTimes(a: nat, s: nat, p: nat)
    requires s * p <= a < s * p + p
    ensures s / 2 * (2 * p) <= a < s / 2 * (2 * p) + 2 * p
  {
    var h, r := s / 2, s % 2;
    assert s * p == h * (2 * p) + r * p by {
      MulDistribute(2 * h, r, p);
      MulAssoc(h, 2, p);
    }
    if r == 1 { assert r * p == p; } else { assert r * p == 0; }
  }

  /** The coefficient known is the largest multiple of 2^al not beyond the coefficient, counted from zero. */
  lemma PointIs(v: int, al: nat)
    ensures exists m :: Point(v, al) == m * Pow2(al)
    ensures v >= 0 ==> 0 <= Point(v, al) <= v < Point(v, al) + Pow2(al)
    ensures v <= 0 ==> Point(v, al) - Pow2(al) < v <= Point(v, al) <= 0
  {
    hide Shr, Pow2;
    var m, p := Mag(v, al), Pow2(al);
    ShrIs(if v < 0 then -v else v, al);
    MulAtLeast(0, m, p);
    MulNegate(m, p);
    assert Point(v, al) == Shrunk(v, al) * p;
  }

  // ---- first pass

  /** Items of ranks k .. se up to the last nonzero one, with `r` zeros pending. */
  function FirstItems(bd: Band, z: seq<int>, k: nat, r: nat): seq<Item>
    requires |z| == 64 && bd.se < 64
    decreases 64 - k
  {
    if k > bd.se then []
    else
      var v := Shrunk(z[k], bd.al);
      if v == 0 then FirstItems(bd, z, k + 1, r + 1)
      else Zrls(bd.tbl, r / 16) + Coef(bd.tbl, r % 16, v) + FirstItems(bd, z, k + 1, 0)
  }

  /** The zeros at the end of the band. */
  function FirstZeros(bd: Band, z: seq<int>, k: nat, r: nat): nat
    requires |z| == 64 && bd.se < 64
    decreases 64 - k
  {
    if k > bd.se then r else FirstZeros(bd, z, k + 1, if Shrunk(z[k], bd.al) == 0 then r + 1 else 0)
  }

  function FirstCode(bd: Band, b: Block): Code
    requires bd.Ok()
  {
    var z := Ranked(bd.o, b);
    Code(FirstItems(bd, z, bd.ss, 0), FirstZeros(bd, z, bd.ss, 0) > 0, [])
  }

  lemma {:induction false} FirstSomething(bd: Band, z: seq<int>, k: nat, r: nat)
    requires |z| == 64 && bd.se < 64 && (r > 0 || k <= bd.se)
    ensures FirstItems(bd, z, k, r) != [] || FirstZeros(bd, z, k, r) > 0
    decreases 64 - k
  {
    if k <= bd.se && Shrunk(z[k], bd.al) == 0 { FirstSomething(bd, z, k + 1, r + 1); }
  }

  lemma FirstCodeOk(bd: Band, b: Block)
    requires bd.Ok()
    ensures CodeOk(FirstCode(bd, b))
  {
    FirstSomething(bd, Ranked(bd.o, b), bd.ss, 0);
  }

  // ---- refinement

  /** A coefficient nonzero before this scan sends the next bit of its magnitude. */
  function CorrectionBit(v: int, al: nat): Item {
    Raw(Mag(v, al) % 2, 1)
  }

  /** The correction bits of ranks i .. j-1. */
  function Corrections(bd: Band, z: seq<int>, i: nat, j: nat): (c: seq<Item>)
    requires |z| == 64 && i <= j <= 64
    ensures |c| <= j - i
    decreases j - i
  {
    if i == j then []
    else Corrections(bd, z, i, j - 1) + (if Mag(z[j - 1], bd.al) > 1 then [CorrectionBit(z[j - 1], bd.al)] else [])
  }

  /** The last rank below `k` whose coefficient becomes nonzero in this scan, or 0. */
  function LastNew(bd: Band, z: seq<int>, k: nat): (eob: nat)
    requires |z| == 64 && k <= 64
    ensures eob == 0 || (bd.ss <= eob < k && Mag(z[eob], bd.al) == 1)
    ensures forall j :: eob < j < k && bd.ss <= j ==> Mag(z[j], bd.al) != 1
  {
    if k <= bd.ss then 0 else if Mag(z[k - 1], bd.al) == 1 then k - 1 else LastNew(bd, z, k - 1)
  }

  /** The symbol and the sign of a coefficient that becomes nonzero behind `r` zeros. */
  function NewCoef(tbl: nat, r: nat, v: int): seq<Item> {
    [Sym(AC, tbl, r * 16 + 1), Raw(if v < 0 then 0 else 1, 1)]
  }

  /** Items of ranks k .. eob, with `r` zeros and the correction bits `br` pending. */
  function RefineItems(bd: Band, z: seq<int>, eob: nat, k: nat, r: nat, br: seq<Item>): seq<Item>
    requires |z| == 64 && eob < 64
    decreases 64 - k, r
  {
    if k > eob then []
    else
      var a := Mag(z[k], bd.al);
      if a == 0 then RefineItems(bd, z, eob, k + 1, r + 1, br)
      else if r > 15 then [Sym(AC, bd.tbl, 0xF0)] + br + RefineItems(bd, z, eob, k, r - 16, [])
      else if a > 1 then RefineItems(bd, z, eob, k + 1, r, br + [CorrectionBit(z[k], bd.al)])
      else NewCoef(bd.tbl, r, z[k]) + br + RefineItems(bd, z, eob, k + 1, 0, [])
  }

  function TailStart(bd: Band, eob: nat): nat {
    if eob == 0 then bd.ss else eob + 1
  }

  function RefineCode(bd: Band, b: Block): Code
    requires bd.Ok()
  {
    var z := Ranked(bd.o, b);
    var eob := LastNew(bd, z, bd.se + 1);
    var s := TailStart(bd, eob);
    Code(RefineItems(bd, z, eob, bd.ss, 0, []), s <= bd.se, if s <= bd.se then Corrections(bd, z, s, bd.se + 1) else [])
  }

  /** A new coefficient is always sent. */
  lemma {:induction false} RefineSomething(bd: Band, z: seq<int>, eob: nat, k: nat, r: nat, br: seq<Item>)
    requires |z| == 64 && eob < 64 && k <= eob && Mag(z[eob], bd.al) == 1
    ensures RefineItems(bd, z, eob, k, r, br) != []
    decreases 64 - k
  {
    var a := Mag(z[k], bd.al);
    if k < eob {
      if a == 0 {
        RefineSomething(bd, z, eob, k + 1, r + 1, br);
      } else if r <= 15 && a > 1 {
        RefineSomething(bd, z, eob, k + 1, r, br + [CorrectionBit(z[k], bd.al)]);
      }
    }
  }

  lemma RefineCodeOk(bd: Band, b: Block)
    requires bd.Ok()
    ensures CodeOk(RefineCode(bd, b))
  {
    var z := Ranked(bd.o, b);
    var eob := LastNew(bd, z, bd.se + 1);
    if eob != 0 { RefineSomething(bd, z, eob, bd.ss, 0, []); }
  }

  // ---- blocks of either pass

  function BlockCode(bd: Band, refining: bool, b: Block): Code
    requires bd.Ok()
  {
    if refining then RefineCode(bd, b) else FirstCode(bd, b)
  }

  lemma BlockCodeOk(bd: Band, refining: bool, b: Block)
    requires bd.Ok()
    ensures CodeOk(BlockCode(bd, refining, b))
  {
    if refining { RefineCodeOk(bd, b); } else { FirstCodeOk(bd, b); }
  }

  /** What the blocks of a scan contribute. */
  function Codes(bd: Band, refining: bool, blocks: seq<Block>): (codes: seq<Code>)
    requires bd.Ok()
    ensures |codes| == |blocks| && CodesOk(codes)
  {
    var codes := seq(|blocks|, i requires 0 <= i < |blocks| => BlockCode(bd, refining, blocks[i]));
    AllCodesOk(bd, refining, blocks, codes);
    codes
  }

  lemma AllCodesOk(bd: Band, refining: bool, blocks: seq<Block>, codes: seq<Code>)
    requires bd.Ok() && |codes| == |blocks| &&
             forall i :: 0 <= i < |blocks| ==> codes[i] == BlockCode(bd, refining, blocks[i])
    ensures CodesOk(codes)
  {
    forall i | 0 <= i < |codes|
      ensures CodeOk(codes[i])
    {
      BlockCodeOk(bd, refining, blocks[i]);
    }
  }

  // ---- 16-bit coefficients give items that can be emitted

  predicate Short(z: seq<int>) {
    forall j :: 0 <= j < |z| ==> -32767 <= z[j] <= 32767
  }

  lemma {:induction false} ShrAtMost(a: nat, n: nat)
    ensures Shr(a, n) <= a
  {
    if n > 0 { ShrAtMost(a, n - 1); }
  }

  lemma ShrunkShort(v: int, al: nat)
    requires -32767 <= v <= 32767
    ensures -32767 <= Shrunk(v, al) <= 32767 && Category(Shrunk(v, al)) <= 15
  {
    ShrAtMost(if v < 0 then -v else v, al);
    CategoryBound(Shrunk(v, al));
  }

  lemma {:induction false} FirstItemsOk(bd: Band, z: seq<int>, k: nat, r: nat)
    requires bd.Ok() && |z| == 64 && Short(z)
    ensures ItemsOk(FirstItems(bd, z, k, r))
    decreases 64 - k
  {
    hide Shr, ItemOk;
    if k <= bd.se {
      var v := Shrunk(z[k], bd.al);
      if v == 0 {
        FirstItemsOk(bd, z, k + 1, r + 1);
      } else {
        ShrunkShort(z[k], bd.al);
        ZrlsOk(bd.tbl, r / 16);
        CoefOk(bd.tbl, r % 16, v);
        FirstItemsOk(bd, z, k + 1, 0);
      }
    }
  }

  lemma {:induction false} CorrectionsOk(bd: Band, z: seq<int>, i: nat, j: nat)
    requires |z| == 64 && i <= j <= 64
    ensures ItemsOk(Corrections(bd, z, i, j))
    decreases j
  {
    if i < j { CorrectionsOk(bd, z, i, j - 1); }
  }

  lemma {:induction false} RefineItemsOk(bd: Band, z: seq<int>, eob: nat, k: nat, r: nat, br: seq<Item>)
    requires bd.Ok() && |z| == 64 && eob < 64 && ItemsOk(br)
    ensures ItemsOk(RefineItems(bd, z, eob, k, r, br))
    decreases 64 - k, r
  {
    hide Shr;
    if k <= eob {
      var a := Mag(z[k], bd.al);
      if a == 0 {
        RefineItemsOk(bd, z, eob, k + 1, r + 1, br);
      } else if r > 15 {
        RefineItemsOk(bd, z, eob, k, r - 16, []);
      } else if a > 1 {
        RefineItemsOk(bd, z, eob, k + 1, r, br + [CorrectionBit(z[k], bd.al)]);
      } else {
        RefineItemsOk(bd, z, eob, k + 1, 0, []);
      }
    }
  }

  predicate CodeItemsOk(c: Code) {
    ItemsOk(c.prefix) && ItemsOk(c.tail)
  }

  lemma BlockItemsOk(bd: Band, refining: bool, b: Block)
    requires bd.Ok() && Short(Ranked(bd.o, b))
    ensures CodeItemsOk(BlockCode(bd, refining, b))
  {
    var z := Ranked(bd.o, b);
    if refining {
      var eob := LastNew(bd, z, bd.se + 1);
      RefineItemsOk(bd, z, eob, bd.ss, 0, []);
      if TailStart(bd, eob) <= bd.se { CorrectionsOk(bd, z, TailStart(bd, eob), bd.se + 1); }
    } else {
      FirstItemsOk(bd, z, bd.ss, 0);
    }
  }

  lemma {:induction false} BelowAtMost(n: nat, k: nat)
    requires n < Pow2(k + 1)
    ensures Below(n) <= k
  {
    if n >= 2 { BelowAtMost(n / 2, k - 1); }
  }

  lemma FlushItemsOk(tbl: nat, u: Run)
    requires tbl < NUM_TBLS && u.eobrun <= MAX_EOBRUN && ItemsOk(u.out) && ItemsOk(u.corr)
    ensures ItemsOk(Flush(tbl, u).out) && ItemsOk(Flush(tbl, u).corr)
  {
    assert Pow2(15) == 0x8000;
    BelowAtMost(u.eobrun, 14);
  }

  lemma StepItemsOk(tbl: nat, u: Run, c: Code)
    requires tbl < NUM_TBLS && RunOk(u) && ItemsOk(u.out) && ItemsOk(u.corr) && CodeItemsOk(c)
    ensures ItemsOk(Step(tbl, u, c).out) && ItemsOk(Step(tbl, u, c).corr)
  {
    hide Flush, ItemOk;
    FlushItemsOk(tbl, u);
    var v := EobRuns.Begun(tbl, u, c);
    FlushItemsOk(tbl, Run(v.out, v.eobrun + 1, v.corr + c.tail));
  }

  lemma {:induction false} RunItemsOk(tbl: nat, codes: seq<Code>, n: nat)
    requires tbl < NUM_TBLS && CodesOk(codes) && n <= |codes| && forall i :: 0 <= i < |codes| ==> CodeItemsOk(codes[i])
    ensures ItemsOk(RunOf(tbl, codes, n).out) && ItemsOk(RunOf(tbl, codes, n).corr)
  {
    hide Step, ItemsOk, CodeItemsOk;
    if n > 0 {
      RunItemsOk(tbl, codes, n - 1);
      StepItemsOk(tbl, RunOf(tbl, codes, n - 1), codes[n - 1]);
    } else {
      NoItemsOk();
    }
  }

  lemma NoItemsOk()
    ensures ItemsOk([])
  {
  }

  predicate ShortBlocks(o: Order, blocks: seq<Block>) {
    forall i :: 0 <= i < |blocks| ==> Short(Ranked(o, blocks[i]))
  }

  /** Every item of a segment of 16-bit coefficients can be emitted. */
  lemma SegmentItemsOk(bd: Band, refining: bool, blocks: seq<Block>)
    requires bd.Ok() && ShortBlocks(bd.o, blocks)
    ensures ItemsOk(Segment(bd.tbl, Codes(bd, refining, blocks)))
  {
    var codes := Codes(bd, refining, blocks);
    forall i | 0 <= i < |codes|
      ensures CodeItemsOk(codes[i])
    {
      BlockItemsOk(bd, refining, blocks[i]);
    }
    RunItemsOk(bd.tbl, codes, |codes|);
    FlushItemsOk(bd.tbl, RunOf(bd.tbl, codes, |codes|));
  }
}
