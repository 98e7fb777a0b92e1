/**
 * Two-pass coding (start_pass_huff and finish_pass_gather in jchuff.c): tables made from the
 * statistics of a run have a code for everything the run sends.
 */
module OptimizedCoding {
  import opened Bits
  import opened CodeLengths
  import opened DerivedTables
  import opened EntropySpec
  import opened HuffmanCodes
  import opened HuffmanMerge
  import opened OptimalTable
  import opened SequentialCoding
  import opened Statistics
  import opened Zigzag

  // ---- the counts of a run are fit for jpeg_gen_optimal_table

  /** `c` counts the symbols of table (kind, tbl) among `items`. */
  ghost predicate CountsOf(c: seq<nat>, kind: Kind, tbl: nat, items: seq<Item>) {
    |c| == CodeLengths.SYMBOLS &&
    forall s: nat :: s < CodeLengths.SYMBOLS ==> c[s] == multiset(items)[Sym(kind, tbl, s)]
  }

  lemma {:induction false} NoSum(c: seq<nat>, n: nat)
    requires n <= |c| && forall s :: 0 <= s < n ==> c[s] == 0
    ensures Sum(c, n) == 0
  {
    if n > 0 { NoSum(c, n - 1); }
  }

  predicate OfTable(it: Item, kind: Kind, tbl: nat) {
    it.Sym? && it.kind == kind && it.tbl == tbl
  }

  /** How many symbols of table (kind, tbl) there are. */
  function SymbolsOf(items: seq<Item>, kind: Kind, tbl: nat): nat {
    if items == [] then 0
    else
      SymbolsOf(items[..|items| - 1], kind, tbl) + if OfTable(items[|items| - 1], kind, tbl) then 1 else 0
  }

  /** No table has more symbols than jpeg_gen_optimal_table can add up. */
  predicate FewSymbols(items: seq<Item>) {
    forall kind, tbl :: 0 <= tbl < NUM_TBLS ==> SymbolsOf(items, kind, tbl) <= LARGEST
  }

  /** The counts of a table add up to its symbols. */
  lemma {:induction false} SumOfCounts(c: seq<nat>, kind: Kind, tbl: nat, items: seq<Item>)
    requires CountsOf(c, kind, tbl, items)
    ensures Sum(c, PSEUDO) <= SymbolsOf(items, kind, tbl)
    decreases |items|
  {
    if items == [] {
      NoSum(c, PSEUDO);
    } else {
      var front, last := items[..|items| - 1], items[|items| - 1];
      assert items == front + [last];
      assert multiset(items) == multiset(front) + multiset{last};
      if OfTable(last, kind, tbl) && last.sym < CodeLengths.SYMBOLS {
        var c' := c[last.sym := c[last.sym] - 1];
        SumUpdate(c, PSEUDO, last.sym, c[last.sym] - 1);
        SumOfCounts(c', kind, tbl, front);
      } else {
        SumOfCounts(c, kind, tbl, front);
      }
    }
  }

  /** Two symbols that do not occur leave room for the pseudo-symbol in UINT8 counts. */
  lemma TwoUnused(c: seq<nat>, x: nat, y: nat)
    requires |c| == CodeLengths.SYMBOLS && x < y < PSEUDO && c[x] == 0 && c[y] == 0
    ensures InUse(Coded(c), PSEUDO) <= 254
  {
    InUseAtMost(Coded(c), PSEUDO, x, y);
  }

  lemma {:induction false} InUseAtMost(used: seq<bool>, n: nat, x: nat, y: nat)
    requires n <= |used| && x < y < |used| && !used[x] && !used[y]
    ensures InUse(used, n) + (if x < n then 1 else 0) + (if y < n then 1 else 0) <= n
  {
    if n > 0 { InUseAtMost(used, n - 1, x, y); }
  }

  /** Symbols the coder never sends: DC categories above 16, and runs without a size other than
      end-of-block and the run of sixteen. */
  predicate Regular(it: Item) {
    it.Sym? ==> if it.kind == DC then it.sym <= 16 else it.sym % 16 != 0 || it.sym == 0 || it.sym == 0xF0
  }

  predicate AllRegular(items: seq<Item>) {
    forall i :: 0 <= i < |items| ==> Regular(items[i])
  }

  lemma {:induction false} ZrlsRegular(tbl: nat, n: nat)
    ensures AllRegular(Zrls(tbl, n))
  {
    if n > 0 { ZrlsRegular(tbl, n - 1); }
  }

  lemma CoefRegular(tbl: nat, r: nat, v: int)
    requires v != 0 && -32767 <= v <= 32767
    ensures AllRegular(Coef(tbl, r, v))
  {
    CategoryBound(v);
  }

  lemma {:induction false} AcRegular(tbl: nat, z: seq<int>, k: nat, r: nat)
    requires CodableAc(z) && 1 <= k <= 64
    ensures AllRegular(AcItems(tbl, z, k, r))
    decreases 64 - k
  {
    if k == 64 {
    } else if z[k] == 0 {
      AcRegular(tbl, z, k + 1, r + 1);
    } else {
      ZrlsRegular(tbl, r / 16);
      CoefRegular(tbl, r % 16, z[k]);
      AcRegular(tbl, z, k + 1, 0);
    }
  }

  lemma BlockRegular(o: Order, dctbl: nat, actbl: nat, b: Block, lastDc: int)
    requires Reorders(o) && Codable(b) && -32768 <= lastDc <= 32767
    ensures AllRegular(BlockItems(o, dctbl, actbl, b, lastDc))
  {
    CategoryBound(b[0] - lastDc);
    AcRegular(actbl, Ranked(o, b), 1, 0);
  }

  lemma {:induction false} McuRegular(sc: Scan, mcu: Mcu, lastDc: seq<int>, blkn: nat)
    requires sc.Valid() && CodableMcu(sc, mcu) && |lastDc| == |sc.dcTbl| && CodableDc(lastDc) && blkn <= |mcu|
    ensures AllRegular(McuItems(sc, mcu, lastDc, blkn))
    decreases |mcu| - blkn
  {
    if blkn < |mcu| {
      var c := sc.membership[blkn];
      BlockRegular(sc.order, sc.dcTbl[c], sc.acTbl[c], mcu[blkn], lastDc[c]);
      McuRegular(sc, mcu, lastDc[c := mcu[blkn][0]], blkn + 1);
    }
  }

  lemma {:induction false} RunRegular(sc: Scan, mcus: seq<Mcu>, n: nat)
    requires sc.Valid() && CodableMcus(sc, mcus) && n <= |mcus|
    ensures AllRegular(RunItems(sc, mcus, n))
  {
    if n > 0 {
      RunRegular(sc, mcus, n - 1);
      McuRegular(sc, mcus[n - 1], NextDc(sc, GatherRun(sc, mcus, n - 1)), 0);
    }
  }

  /** A symbol of table (kind, tbl) occurs. */
  predicate Occurs(items: seq<Item>, kind: Kind, tbl: nat) {
    exists i :: 0 <= i < |items| && items[i].Sym? && items[i].kind == kind && items[i].tbl == tbl
  }

  lemma OccursIn(a: seq<Item>, b: seq<Item>, kind: Kind, tbl: nat)
    requires Occurs(a, kind, tbl) || Occurs(b, kind, tbl)
    ensures Occurs(a + b, kind, tbl)
  {
    if Occurs(a, kind, tbl) {
      var i :| 0 <= i < |a| && a[i].Sym? && a[i].kind == kind && a[i].tbl == tbl;
      assert (a + b)[i] == a[i];
    } else {
      var i :| 0 <= i < |b| && b[i].Sym? && b[i].kind == kind && b[i].tbl == tbl;
      assert (a + b)[|a| + i] == b[i];
    }
  }

  /** Every block sends a DC symbol and at least one AC symbol. */
  lemma {:induction false} AcOccurs(tbl: nat, z: seq<int>, k: nat, r: nat)
    requires k <= |z| && (k < |z| || r > 0)
    ensures Occurs(AcItems(tbl, z, k, r), AC, tbl)
    decreases |z| - k
  {
    if k == |z| {
      assert AcItems(tbl, z, k, r)[0] == Sym(AC, tbl, 0);
    } else if z[k] == 0 {
      AcOccurs(tbl, z, k + 1, r + 1);
    } else {
      assert Coef(tbl, r % 16, z[k])[0].Sym?;
      OccursIn(Zrls(tbl, r / 16), Coef(tbl, r % 16, z[k]), AC, tbl);
      OccursIn(Zrls(tbl, r / 16) + Coef(tbl, r % 16, z[k]), AcItems(tbl, z, k + 1, 0), AC, tbl);
    }
  }

  lemma BlockOccurs(o: Order, dctbl: nat, actbl: nat, b: Block, lastDc: int)
    ensures Occurs(BlockItems(o, dctbl, actbl, b, lastDc), DC, dctbl) &&
            Occurs(BlockItems(o, dctbl, actbl, b, lastDc), AC, actbl)
  {
    assert DcItems(dctbl, b[0] - lastDc)[0].Sym?;
    AcOccurs(actbl, Ranked(o, b), 1, 0);
    OccursIn(DcItems(dctbl, b[0] - lastDc), AcItems(actbl, Ranked(o, b), 1, 0), DC, dctbl);
    OccursIn(DcItems(dctbl, b[0] - lastDc), AcItems(actbl, Ranked(o, b), 1, 0), AC, actbl);
  }

  lemma {:induction false} McuOccurs(sc: Scan, mcu: Mcu, lastDc: seq<int>, blkn: nat, k: nat)
    requires sc.Valid() && |mcu| == |sc.membership| && |lastDc| == |sc.dcTbl| && blkn <= k < |mcu|
    ensures Occurs(McuItems(sc, mcu, lastDc, blkn), DC, sc.dcTbl[sc.membership[k]])
    ensures Occurs(McuItems(sc, mcu, lastDc, blkn), AC, sc.acTbl[sc.membership[k]])
    decreases |mcu| - blkn
  {
    var c, d := sc.membership[blkn], sc.membership[k];
    var a, b := BlockItems(sc.order, sc.dcTbl[c], sc.acTbl[c], mcu[blkn], lastDc[c]),
        McuItems(sc, mcu, lastDc[c := mcu[blkn][0]], blkn + 1);
    if blkn == k { BlockOccurs(sc.order, sc.dcTbl[c], sc.acTbl[c], mcu[blkn], lastDc[c]); }
      else { McuOccurs(sc, mcu, lastDc[c := mcu[blkn][0]], blkn + 1, k); }
    OccursIn(a, b, DC, sc.dcTbl[d]);
    OccursIn(a, b, AC, sc.acTbl[d]);
  }

  /** With at least one MCU, every component in it sends symbols of its tables. */
  lemma {:induction false} RunOccurs(sc: Scan, mcus: seq<Mcu>, n: nat, k: nat)
    requires sc.Valid() && CodableMcus(sc, mcus) && 1 <= n <= |mcus| && k < |sc.membership|
    ensures Occurs(RunItems(sc, mcus, n), DC, sc.dcTbl[sc.membership[k]])
    ensures Occurs(RunItems(sc, mcus, n), AC, sc.acTbl[sc.membership[k]])
  {
    McuOccurs(sc, mcus[n - 1], NextDc(sc, GatherRun(sc, mcus, n - 1)), 0, k);
    OccursIn(RunItems(sc, mcus, n - 1), ItemsOf(sc, mcus, n - 1), DC, sc.dcTbl[sc.membership[k]]);
    OccursIn(RunItems(sc, mcus, n - 1), ItemsOf(sc, mcus, n - 1), AC, sc.acTbl[sc.membership[k]]);
  }

  /** What jpeg_gen_optimal_table asks of the counts. */
  ghost predicate Countable(c: seq<nat>) {
    |c| == CodeLengths.SYMBOLS && Sum(c, PSEUDO) <= LARGEST && InUse(Coded(c), PSEUDO) <= 254 &&
    exists y: nat :: y < PSEUDO && c[y] > 0
  }

  lemma CountsAreCountable(c: seq<nat>, kind: Kind, tbl: nat, items: seq<Item>)
    requires CountsOf(c, kind, tbl, items) && ItemsOk(items) && AllRegular(items) && Occurs(items, kind, tbl) &&
             SymbolsOf(items, kind, tbl) <= LARGEST
    ensures Countable(c)
  {
    SumOfCounts(c, kind, tbl, items);
    var i :| 0 <= i < |items| && items[i].Sym? && items[i].kind == kind && items[i].tbl == tbl;
    assert ItemOk(items[i]) && items[i] == Sym(kind, tbl, items[i].sym) && items[i] in items;
    assert c[items[i].sym] > 0;
    var x, y := if kind == DC then 17 else 0x10, if kind == DC then 18 else 0x20;
    assert Sym(kind, tbl, x) !in items && Sym(kind, tbl, y) !in items;
    TwoUnused(c, x, y);
  }

  // ---- tables for a run

  /** Every symbol counted has a code in tables derived from the counts. */
  lemma CountedHasCode(c: seq<nat>, h: HuffTable, d: CTable, sym: Byte)
    requires TableFor(c, h) && CDerived(h, d)
    ensures d.ehufsi[sym] != 0 <==> c[sym] > 0
  {
    var list := h.huffval[..Count(h.bits, 16)];
    if c[sym] > 0 {
      assert sym in list;
      var p: nat :| p < |list| && list[p] == sym;
      var l, j := Place(h, p, 16);
      assert SymbolOf(h, l, j) == sym;
    }
    if d.ehufsi[sym] != 0 {
      assert Slot(h, d.ehufsi[sym], d.ehufco[sym], sym);
      var p := Index(h, d.ehufsi[sym], d.ehufco[sym] - First(h.bits, d.ehufsi[sym]));
      assert list[p] == sym;
    }
  }

  /** `table` is the table made from the counts that table (kind, tbl) has in the run, and from a best code for them. */
  ghost predicate TableOf(table: HuffTable, kind: Kind, tbl: nat, items: seq<Item>) {
    exists c :: CountsOf(c, kind, tbl, items) && TableFor(c, table) && BestTable(c, table)
  }

  /** A best code for the symbols of table (kind, tbl), and one more, has a word longer than 32 bits. */
  ghost predicate OverlongFor(kind: Kind, tbl: nat, items: seq<Item>, c: seq<nat>, cs: seq<nat>) {
    CountsOf(c, kind, tbl, items) && |c| == CodeLengths.SYMBOLS && CompleteCode(Coded(c), cs) &&
    Optimal(c[PSEUDO := 1], cs) && exists x :: 0 <= x < CodeLengths.SYMBOLS && cs[x] > MAX_CLEN
  }

  ghost predicate Overlong(items: seq<Item>) {
    exists kind, tbl, c, cs :: OverlongFor(kind, tbl, items, c, cs)
  }

  method GenTable(counts: array<nat>, ghost kind: Kind, ghost tbl: nat, ghost items: seq<Item>) returns (r: Result)
    requires counts.Length == CodeLengths.SYMBOLS && CountsOf(counts[..], kind, tbl, items)
    requires ItemsOk(items) && AllRegular(items) && Occurs(items, kind, tbl)
    requires SymbolsOf(items, kind, tbl) <= LARGEST
    modifies counts
    ensures r.Table? ==> TableOf(r.table, kind, tbl, items)
    ensures !r.Table? ==> Overlong(items)
  {
    hide CompleteCode, Optimal, TableFor, MadeFrom, OwnLengths, CountsOf, Coded, Occurs, AllRegular, ItemsOk;
    ghost var c := counts[..];
    CountsAreCountable(c, kind, tbl, items);
    ghost var y: nat :| y < PSEUDO && c[y] > 0;
    ghost var cs;
    r, cs := GenOptimalTable(counts, y);
    if r.Table? { assert BestWith(c, cs, r.table); } else { assert OverlongFor(kind, tbl, items, c, cs); }
  }

  /** One table of finish_pass_gather: made once, from counts not yet used up. */
  method OneTable(counts: seq<array<nat>>, tables: seq<HuffTable>, did: seq<bool>, tbl: nat, ghost kind: Kind,
      ghost items: seq<Item>)
    returns (ok: bool, tables': seq<HuffTable>, did': seq<bool>)
    requires Tables(counts) && Made(Contents(counts), tables, did, kind, items) && TblNo(tbl)
    requires ItemsOk(items) && AllRegular(items) && Occurs(items, kind, tbl) && FewSymbols(items)
    modifies counts
    ensures ok ==>
              Made(Contents(counts), tables', did', kind, items) && did'[tbl] &&
              forall i :: 0 <= i < |did| && did[i] ==> did'[i]
    ensures ok ==> forall i :: 0 <= i < |tables| && i != tbl ==> tables'[i] == tables[i]
    ensures !ok ==> Overlong(items)
  {
    hide Overlong;
    ok, tables', did' := true, tables, did;
    if !did[tbl] {
      ghost var before := Contents(counts);
      var r := GenTable(counts[tbl], kind, tbl, items);
      ok := r.Table?;
      if ok {
        tables', did' := tables[tbl := r.table], did[tbl := true];
        MadeOne(before, Contents(counts), tables, did, kind, items, tbl, r.table);
      }
    }
  }

  /** Tables marked done are made from the run's counts; the counts of the others are intact. */
  ghost predicate Made(counts: seq<seq<nat>>, tables: seq<HuffTable>, did: seq<bool>, kind: Kind, items: seq<Item>) {
    |counts| == |tables| == |did| == NUM_TBLS &&
    forall i: nat {:trigger TblNo(i)} :: TblNo(i) ==>
      if did[i] then TableOf(tables[i], kind, i, items)
      else CountsOf(counts[i], kind, i, items) && tables[i].WellFormed()
  }

  lemma MadeOne(c0: seq<seq<nat>>, c1: seq<seq<nat>>, tables: seq<HuffTable>, did: seq<bool>, kind: Kind,
      items: seq<Item>, tbl: nat, table: HuffTable)
    requires Made(c0, tables, did, kind, items) && TblNo(tbl) && |c1| == NUM_TBLS && TableOf(table, kind, tbl, items)
    requires forall i :: 0 <= i < NUM_TBLS && i != tbl ==> c1[i] == c0[i]
    ensures Made(c1, tables[tbl := table], did[tbl := true], kind, items)
  {
  }

  /** What finish_pass_gather works on: the counts of the run, for every component's tables. */
  ghost predicate Finishing(sc: Scan, items: seq<Item>) {
    sc.Valid() && ItemsOk(items) && AllRegular(items) && FewSymbols(items) &&
    forall c: nat :: c < |sc.dcTbl| ==> Occurs(items, DC, sc.dcTbl[c]) && Occurs(items, AC, sc.acTbl[c])
  }

  /** Some component of the scan uses table (kind, tbl). */
  predicate TableUsed(sc: Scan, kind: Kind, tbl: nat)
    requires sc.Valid()
  {
    exists c :: 0 <= c < |sc.dcTbl| && tbl == if kind == DC then sc.dcTbl[c] else sc.acTbl[c]
  }

  lemma ComponentUses(sc: Scan, c: nat)
    requires sc.Valid() && c < |sc.dcTbl|
    ensures TableUsed(sc, DC, sc.dcTbl[c]) && TableUsed(sc, AC, sc.acTbl[c])
  {
  }

  /** Tables no component uses stay as they are. */
  ghost predicate Untouched(sc: Scan, before: seq<HuffTable>, after: seq<HuffTable>, kind: Kind)
    requires sc.Valid()
  {
    |before| == |after| == NUM_TBLS &&
    forall i: nat {:trigger TblNo(i)} :: TblNo(i) && !TableUsed(sc, kind, i) ==> after[i] == before[i]
  }

  /** finish_pass_gather. */
  method FinishGather(sc: Scan, dcCounts: seq<array<nat>>, acCounts: seq<array<nat>>, hdc: seq<HuffTable>,
      hac: seq<HuffTable>, ghost items: seq<Item>)
    returns (ok: bool, hdc': seq<HuffTable>, hac': seq<HuffTable>, didDc: seq<bool>, didAc: seq<bool>)
    requires Finishing(sc, items) && Apart(dcCounts, acCounts)
    requires Made(Contents(dcCounts), hdc, seq(NUM_TBLS, _ => false), DC, items)
    requires Made(Contents(acCounts), hac, seq(NUM_TBLS, _ => false), AC, items)
    modifies dcCounts, acCounts
    ensures ok ==> Made(Contents(dcCounts), hdc', didDc, DC, items) && Made(Contents(acCounts), hac', didAc, AC, items)
    ensures ok ==> forall c :: 0 <= c < |sc.dcTbl| ==> didDc[sc.dcTbl[c]] && didAc[sc.acTbl[c]]
    ensures ok ==> Untouched(sc, hdc, hdc', DC) && Untouched(sc, hac, hac', AC)
    ensures !ok ==> Overlong(items)
  {
    hide Made, Overlong, TableUsed, Occurs;
    ok, hdc', hac' := true, hdc, hac;
    didDc, didAc := seq(NUM_TBLS, _ => false), seq(NUM_TBLS, _ => false);
    MadeSizes(Contents(dcCounts), Contents(acCounts), hdc, hac, didDc, didAc, items);
    for ci := 0 to |sc.dcTbl|
      invariant ok && Made(Contents(dcCounts), hdc', didDc, DC, items) &&
                Made(Contents(acCounts), hac', didAc, AC, items)
      invariant |didDc| == |didAc| == NUM_TBLS && forall c :: 0 <= c < ci ==> didDc[sc.dcTbl[c]] && didAc[sc.acTbl[c]]
      invariant Untouched(sc, hdc, hdc', DC) && Untouched(sc, hac, hac', AC)
    {
      ComponentUses(sc, ci);
      ok, hdc', didDc := OneTable(dcCounts, hdc', didDc, sc.dcTbl[ci], DC, items);
      if !ok { return; }
      ok, hac', didAc := OneTable(acCounts, hac', didAc, sc.acTbl[ci], AC, items);
      if !ok { return; }
      MadeSizes(Contents(dcCounts), Contents(acCounts), hdc', hac', didDc, didAc, items);
    }
  }

  lemma MadeSizes(dc: seq<seq<nat>>, ac: seq<seq<nat>>, hdc: seq<HuffTable>, hac: seq<HuffTable>, didDc: seq<bool>,
      didAc: seq<bool>, items: seq<Item>)
    requires Made(dc, hdc, didDc, DC, items) && Made(ac, hac, didAc, AC, items)
    ensures |hdc| == |hac| == |didDc| == |didAc| == NUM_TBLS
  {
  }

  // ---- two passes

  predicate OnlyUsed(sc: Scan, items: seq<Item>)
    requires sc.Valid()
  {
    forall i :: 0 <= i < |items| && items[i].Sym? ==> TableUsed(sc, items[i].kind, items[i].tbl)
  }

  lemma {:induction false} McuOnlyUsed(sc: Scan, mcu: Mcu, lastDc: seq<int>, blkn: nat)
    requires sc.Valid() && |mcu| == |sc.membership| && |lastDc| == |sc.dcTbl| && blkn <= |mcu|
    ensures OnlyUsed(sc, McuItems(sc, mcu, lastDc, blkn))
    decreases |mcu| - blkn
  {
    if blkn < |mcu| {
      var c := sc.membership[blkn];
      BlockOfTables(sc.order, sc.dcTbl[c], sc.acTbl[c], mcu[blkn], lastDc[c]);
      McuOnlyUsed(sc, mcu, lastDc[c := mcu[blkn][0]], blkn + 1);
    }
  }

  lemma {:induction false} RunOnlyUsed(sc: Scan, mcus: seq<Mcu>, n: nat)
    requires sc.Valid() && CodableMcus(sc, mcus) && n <= |mcus|
    ensures OnlyUsed(sc, RunItems(sc, mcus, n))
  {
    if n > 0 {
      RunOnlyUsed(sc, mcus, n - 1);
      McuOnlyUsed(sc, mcus[n - 1], NextDc(sc, GatherRun(sc, mcus, n - 1)), 0);
    }
  }

  /** Tables that go with the run: each table a component uses is made from its counts. */
  ghost predicate TablesFor(sc: Scan, hdc: seq<HuffTable>, hac: seq<HuffTable>, items: seq<Item>)
    requires sc.Valid()
  {
    |hdc| == |hac| == NUM_TBLS &&
    (forall i: nat {:trigger TblNo(i)} :: TblNo(i) && TableUsed(sc, DC, i) ==> TableOf(hdc[i], DC, i, items)) &&
    (forall i: nat {:trigger TblNo(i)} :: TblNo(i) && TableUsed(sc, AC, i) ==> TableOf(hac[i], AC, i, items))
  }

  ghost predicate DerivedFrom(hdc: seq<HuffTable>, hac: seq<HuffTable>, t: CTables) {
    |hdc| == |hac| == NUM_TBLS && t.Valid() &&
    forall i: nat {:trigger TblNo(i)} :: TblNo(i) ==>
      hdc[i].WellFormed() && hac[i].WellFormed() && CDerived(hdc[i], t.dc[i]) && CDerived(hac[i], t.ac[i])
  }

  lemma ItemHasCode(sc: Scan, hdc: seq<HuffTable>, hac: seq<HuffTable>, t: CTables, items: seq<Item>, i: nat)
    requires sc.Valid() && TablesFor(sc, hdc, hac, items) && DerivedFrom(hdc, hac, t) && ItemsOk(items) &&
             OnlyUsed(sc, items) && i < |items|
    ensures Sendable(t, items[i])
  {
    var it := items[i];
    if it.Sym? {
      assert TblNo(it.tbl) && ItemOk(it) && it in items;
      var h := if it.kind == DC then hdc[it.tbl] else hac[it.tbl];
      var c :| CountsOf(c, it.kind, it.tbl, items) && TableFor(c, h);
      assert it == Sym(it.kind, it.tbl, it.sym);
      CountedHasCode(c, h, t.Table(it.kind, it.tbl), it.sym);
    }
  }

  /** With tables made from its own statistics, a run never meets a symbol without a code. */
  lemma OptimizedSendable(sc: Scan, mcus: seq<Mcu>, hdc: seq<HuffTable>, hac: seq<HuffTable>, t: CTables)
    requires sc.Valid() && CodableMcus(sc, mcus) && TablesFor(sc, hdc, hac, RunItems(sc, mcus, |mcus|)) &&
             DerivedFrom(hdc, hac, t)
    ensures RunSendable(sc, t, mcus, |mcus|)
  {
    var items := RunItems(sc, mcus, |mcus|);
    RunOnlyUsed(sc, mcus, |mcus|);
    forall i | 0 <= i < |items|
      ensures Sendable(t, items[i])
    {
      ItemHasCode(sc, hdc, hac, t, items, i);
    }
    SendableItems(sc, t, mcus, |mcus|);
  }

  /** Every component has blocks in the MCU. */
  predicate AllInMcu(sc: Scan) {
    forall c: nat :: c < |sc.dcTbl| ==> c in sc.membership
  }

  lemma RunFinishing(sc: Scan, mcus: seq<Mcu>)
    requires sc.Valid() && CodableMcus(sc, mcus) && mcus != [] && AllInMcu(sc) &&
             FewSymbols(RunItems(sc, mcus, |mcus|))
    ensures Finishing(sc, RunItems(sc, mcus, |mcus|))
  {
    RunRegular(sc, mcus, |mcus|);
    forall c: nat | c < |sc.dcTbl|
      ensures Occurs(RunItems(sc, mcus, |mcus|), DC, sc.dcTbl[c]) && Occurs(RunItems(sc, mcus, |mcus|), AC, sc.acTbl[c])
    {
      assert c in sc.membership;
      var k: nat :| k < |sc.membership| && sc.membership[k] == c;
      RunOccurs(sc, mcus, |mcus|, k);
    }
  }

  lemma NothingMade(counts: seq<seq<nat>>, tables: seq<HuffTable>, kind: Kind, items: seq<Item>)
    requires AllGrown(Blank(), counts, kind, items) && |tables| == NUM_TBLS &&
             forall i :: 0 <= i < NUM_TBLS ==> tables[i].WellFormed()
    ensures Made(counts, tables, seq(NUM_TBLS, _ => false), kind, items)
  {
    forall i: nat {:trigger TblNo(i)} | TblNo(i)
      ensures CountsOf(counts[i], kind, i, items)
    {
    }
  }

  lemma MadeForAll(sc: Scan, dcCounts: seq<seq<nat>>, acCounts: seq<seq<nat>>, hdc: seq<HuffTable>,
      hac: seq<HuffTable>, didDc: seq<bool>, didAc: seq<bool>, items: seq<Item>)
    requires sc.Valid() && Made(dcCounts, hdc, didDc, DC, items) && Made(acCounts, hac, didAc, AC, items)
    requires forall c :: 0 <= c < |sc.dcTbl| ==> didDc[sc.dcTbl[c]] && didAc[sc.acTbl[c]]
    ensures TablesFor(sc, hdc, hac, items)
    ensures forall i :: 0 <= i < NUM_TBLS ==> hdc[i].WellFormed() && hac[i].WellFormed()
  {
    forall i | 0 <= i < NUM_TBLS
      ensures hdc[i].WellFormed() && hac[i].WellFormed()
    {
      assert TblNo(i);
    }
  }

  /** The statistics pass over a whole run, and the tables made from it. The tables given are
      replaced where a component uses them. */
  method OptimizeTables(sc: Scan, mcus: seq<Mcu>, hdc: seq<HuffTable>, hac: seq<HuffTable>)
    returns (ok: bool, hdc': seq<HuffTable>, hac': seq<HuffTable>)
    requires sc.Valid() && CodableMcus(sc, mcus) && mcus != [] && AllInMcu(sc) &&
             FewSymbols(RunItems(sc, mcus, |mcus|))
    requires |hdc| == |hac| == NUM_TBLS && forall i :: 0 <= i < NUM_TBLS ==> hdc[i].WellFormed() && hac[i].WellFormed()
    ensures ok ==> TablesFor(sc, hdc', hac', RunItems(sc, mcus, |mcus|))
    ensures ok ==> forall i :: 0 <= i < NUM_TBLS ==> hdc'[i].WellFormed() && hac'[i].WellFormed()
    ensures ok ==> Untouched(sc, hdc, hdc', DC) && Untouched(sc, hac, hac', AC)
    ensures ok ==> forall t :: DerivedFrom(hdc', hac', t) ==> RunSendable(sc, t, mcus, |mcus|)
    ensures !ok ==> Overlong(RunItems(sc, mcus, |mcus|))
  {
    hide Overlong;
    ghost var items := RunItems(sc, mcus, |mcus|);
    var dcCounts, acCounts := Gather(sc, mcus);
    RunFinishing(sc, mcus);
    NothingMade(Contents(dcCounts), hdc, DC, items);
    NothingMade(Contents(acCounts), hac, AC, items);
    var didDc, didAc;
    ok, hdc', hac', didDc, didAc := FinishGather(sc, dcCounts, acCounts, hdc, hac, items);
    if ok {
      MadeForAll(sc, Contents(dcCounts), Contents(acCounts), hdc', hac', didDc, didAc, items);
      forall t | DerivedFrom(hdc', hac', t)
        ensures RunSendable(sc, t, mcus, |mcus|)
      {
        OptimizedSendable(sc, mcus, hdc', hac', t);
      }
    }
  }

  method Zeroed() returns (a: array<nat>)
    ensures fresh(a) && a.Length == CodeLengths.SYMBOLS && forall s :: 0 <= s < a.Length ==> a[s] == 0
  {
    a := new nat[CodeLengths.SYMBOLS](_ => 0);
  }

  method FourZeroed() returns (counts: seq<array<nat>>)
    ensures fresh(counts) && Tables(counts) &&
            forall i, s :: 0 <= i < NUM_TBLS && 0 <= s < CodeLengths.SYMBOLS ==> counts[i][s] == 0
  {
    var a := Zeroed();
    var b := Zeroed();
    var c := Zeroed();
    var d := Zeroed();
    counts := [a, b, c, d];
  }

  /** The statistics pass over a whole run. */
  method Gather(sc: Scan, mcus: seq<Mcu>) returns (dcCounts: seq<array<nat>>, acCounts: seq<array<nat>>)
    requires sc.Valid() && CodableMcus(sc, mcus)
    ensures fresh(dcCounts) && fresh(acCounts) && Apart(dcCounts, acCounts)
    ensures Tallied(Blank(), Contents(dcCounts), Blank(), Contents(acCounts), RunItems(sc, mcus, |mcus|))
  {
    hide RunItems, Tallied, GatherRun;
    dcCounts := FourZeroed();
    acCounts := FourZeroed();
    var g := new Gatherer(sc, dcCounts, acCounts);
    GatherAll(g, mcus);
  }

  method GatherAll(g: Gatherer, mcus: seq<Mcu>)
    requires g.Gathered(mcus, 0)
    modifies g, g.dcCounts, g.acCounts
    ensures g.Gathered(mcus, |mcus|)
  {
    hide Gatherer.Gathered;
    for i := 0 to |mcus|
      invariant g.Gathered(mcus, i)
    {
      g.EncodeMcu(mcus[i], mcus, i);
    }
  }
}
