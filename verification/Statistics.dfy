/**
 * The statistics pass (jchuff.c): it counts the symbols that the output pass will send, so that
 * tables made from the counts have a code for each of them.
 */
module Statistics {
  import CodeLengths
  import opened EntropySpec
  import opened SequentialCoding
  import opened Zigzag

  const SYMBOLS := CodeLengths.SYMBOLS

  // ---- what is counted

  /** The part of the coder's state that the statistics pass keeps. */
  datatype GatherState = GatherState(lastDc: seq<int>, toGo: nat)

  predicate GatherOk(sc: Scan, g: GatherState) {
    |g.lastDc| == |sc.dcTbl| && CodableDc(g.lastDc)
  }

  /** The DC predictions the next MCU is coded with. */
  function NextDc(sc: Scan, g: GatherState): seq<int> {
    if sc.restartInterval > 0 && g.toGo == 0 then Zeros(|sc.dcTbl|) else g.lastDc
  }

  function NextToGo(sc: Scan, g: GatherState): nat {
    if sc.restartInterval == 0 then g.toGo else (if g.toGo == 0 then sc.restartInterval else g.toGo) - 1
  }

  /** State after the first `n` MCUs. */
  function GatherRun(sc: Scan, mcus: seq<Mcu>, n: nat): (g: GatherState)
    requires sc.Valid() && CodableMcus(sc, mcus) && n <= |mcus|
    ensures GatherOk(sc, g)
  {
    if n == 0 then GatherState(Zeros(|sc.dcTbl|), sc.restartInterval)
    else
      var g := GatherRun(sc, mcus, n - 1);
      McuItemsOk(sc, mcus[n - 1], NextDc(sc, g), 0);
      GatherState(McuDc(sc, mcus[n - 1], NextDc(sc, g), 0), NextToGo(sc, g))
  }

  /** The items of MCU `i`. */
  function ItemsOf(sc: Scan, mcus: seq<Mcu>, i: nat): (items: seq<Item>)
    requires sc.Valid() && CodableMcus(sc, mcus) && i < |mcus|
    ensures ItemsOk(items)
  {
    McuItemsOk(sc, mcus[i], NextDc(sc, GatherRun(sc, mcus, i)), 0);
    McuItems(sc, mcus[i], NextDc(sc, GatherRun(sc, mcus, i)), 0)
  }

  function RunItems(sc: Scan, mcus: seq<Mcu>, n: nat): (items: seq<Item>)
    requires sc.Valid() && CodableMcus(sc, mcus) && n <= |mcus|
    ensures ItemsOk(items)
  {
    if n == 0 then [] else RunItems(sc, mcus, n - 1) + ItemsOf(sc, mcus, n - 1)
  }

  /** The output pass, whatever its tables, is in the same state ... */
  lemma {:induction false} SameState(sc: Scan, t: CTables, mcus: seq<Mcu>, n: nat)
    requires sc.Valid() && t.Valid() && CodableMcus(sc, mcus) && n <= |mcus|
    ensures RunState(sc, t, mcus, n).lastDc == GatherRun(sc, mcus, n).lastDc
    ensures RunState(sc, t, mcus, n).toGo == GatherRun(sc, mcus, n).toGo
  {
    hide NextState, StateOk;
    if n > 0 {
      SameState(sc, t, mcus, n - 1);
      SameStep(sc, t, RunState(sc, t, mcus, n - 1), GatherRun(sc, mcus, n - 1), mcus[n - 1]);
    }
  }

  lemma SameStep(sc: Scan, t: CTables, s: CoderState, g: GatherState, mcu: Mcu)
    requires sc.Valid() && t.Valid() && StateOk(sc, s) && CodableMcu(sc, mcu) && s.lastDc == g.lastDc &&
             s.toGo == g.toGo
    ensures NextState(sc, t, s, mcu).lastDc == McuDc(sc, mcu, NextDc(sc, g), 0)
    ensures NextState(sc, t, s, mcu).toGo == NextToGo(sc, g)
  {
  }

  /** ... and sends the items that were counted. */
  lemma SameItems(sc: Scan, t: CTables, mcus: seq<Mcu>, i: nat)
    requires sc.Valid() && t.Valid() && CodableMcus(sc, mcus) && i < |mcus|
    ensures NextItems(sc, RunState(sc, t, mcus, i), mcus[i]) == ItemsOf(sc, mcus, i)
  {
    SameState(sc, t, mcus, i);
  }

  /** A run can be sent exactly when every symbol that occurs in it has a code. */
  lemma {:induction false} SendableItems(sc: Scan, t: CTables, mcus: seq<Mcu>, n: nat)
    requires sc.Valid() && t.Valid() && CodableMcus(sc, mcus) && n <= |mcus|
    ensures RunSendable(sc, t, mcus, n) <==> AllSendable(t, RunItems(sc, mcus, n))
  {
    hide RunState, SendableMcu, ItemsOf;
    if n > 0 {
      SendableItems(sc, t, mcus, n - 1);
      SendableStep(sc, t, mcus, n - 1);
    }
  }

  lemma SendableStep(sc: Scan, t: CTables, mcus: seq<Mcu>, i: nat)
    requires sc.Valid() && t.Valid() && CodableMcus(sc, mcus) && i < |mcus|
    ensures AllSendable(t, RunItems(sc, mcus, i + 1)) <==>
            AllSendable(t, RunItems(sc, mcus, i)) && SendableMcu(sc, t, mcus, i)
  {
    SendableIs(sc, t, mcus, i);
    SendableSplit(t, RunItems(sc, mcus, i), ItemsOf(sc, mcus, i));
  }

  lemma SendableIs(sc: Scan, t: CTables, mcus: seq<Mcu>, i: nat)
    requires sc.Valid() && t.Valid() && CodableMcus(sc, mcus) && i < |mcus|
    ensures SendableMcu(sc, t, mcus, i) <==> AllSendable(t, ItemsOf(sc, mcus, i))
  {
    SameItems(sc, t, mcus, i);
  }

  lemma SendableSplit(t: CTables, a: seq<Item>, b: seq<Item>)
    requires t.Valid() && ItemsOk(a) && ItemsOk(b)
    ensures ItemsOk(a + b) && (AllSendable(t, a + b) <==> AllSendable(t, a) && AllSendable(t, b))
  {
    if AllSendable(t, a + b) {
      forall i | 0 <= i < |a|
        ensures Sendable(t, a[i])
      {
        assert a[i] == (a + b)[i];
      }
      forall i | 0 <= i < |b|
        ensures Sendable(t, b[i])
      {
        assert b[i] == (a + b)[|a| + i];
      }
    }
  }

  // ---- counting

  /** `counts` has grown by the symbols of table (kind, tbl) among `items`. */
  ghost predicate Grown(before: seq<nat>, after: seq<nat>, kind: Kind, tbl: nat, items: seq<Item>) {
    |before| == |after| == SYMBOLS &&
    forall s: nat :: s < SYMBOLS ==> after[s] == before[s] + multiset(items)[Sym(kind, tbl, s)]
  }

  lemma GrownMore(c0: seq<nat>, c1: seq<nat>, c2: seq<nat>, kind: Kind, tbl: nat, a: seq<Item>, b: seq<Item>)
    requires Grown(c0, c1, kind, tbl, a) && Grown(c1, c2, kind, tbl, b)
    ensures Grown(c0, c2, kind, tbl, a + b)
  {
    assert multiset(a + b) == multiset(a) + multiset(b);
  }

  /** Counting one symbol. */
  lemma GrownOne(c: seq<nat>, kind: Kind, tbl: nat, sym: nat, it: Item)
    requires |c| == SYMBOLS && sym < SYMBOLS && it == Sym(kind, tbl, sym)
    ensures Grown(c, c[sym := c[sym] + 1], kind, tbl, [it])
  {
    assert multiset([it]) == multiset{it};
  }

  /** Items of other tables count for nothing. */
  lemma GrownNot(c: seq<nat>, kind: Kind, tbl: nat, items: seq<Item>)
    requires |c| == SYMBOLS &&
             forall i :: 0 <= i < |items| ==> items[i].Raw? || items[i].kind != kind || items[i].tbl != tbl
    ensures Grown(c, c, kind, tbl, items)
  {
    forall s: nat | s < SYMBOLS
      ensures multiset(items)[Sym(kind, tbl, s)] == 0
    {
      assert Sym(kind, tbl, s) !in items;
    }
  }

  method CountSym(counts: array<nat>, sym: nat)
    requires counts.Length == SYMBOLS && sym < SYMBOLS
    modifies counts
    ensures counts[..] == old(counts[..])[sym := old(counts[sym]) + 1]
  {
    counts[sym] := counts[sym] + 1;
  }

  /** `done` is counted, `rest` is still to be counted. */
  ghost predicate CountingAc(items: seq<Item>, done: seq<Item>, rest: seq<Item>, tbl: nat, before: seq<nat>,
      counts: seq<nat>) {
    ItemsOk(items) && items == done + rest && Grown(before, counts, AC, tbl, done)
  }

  lemma CountStep(items: seq<Item>, done: seq<Item>, it: Item, rest: seq<Item>, tbl: nat, before: seq<nat>,
      counts: seq<nat>)
    requires CountingAc(items, done, [it] + rest, tbl, before, counts)
    ensures it.Sym? && it.kind == AC && it.tbl == tbl ==>
              it.sym < 256 && CountingAc(items, done + [it], rest, tbl, before, counts[it.sym := counts[it.sym] + 1])
    ensures it.Raw? ==> CountingAc(items, done + [it], rest, tbl, before, counts)
  {
    assert items[|done|] == it;
    assert items == done + [it] + rest;
    if it.Raw? {
      GrownNot(counts, AC, tbl, [it]);
      GrownMore(before, counts, counts, AC, tbl, done, [it]);
    } else if it.kind == AC && it.tbl == tbl {
      GrownOne(counts, AC, tbl, it.sym, it);
      GrownMore(before, counts, counts[it.sym := counts[it.sym] + 1], AC, tbl, done, [it]);
    }
  }

  method CountZrls(acCounts: array<nat>, tbl: nat, r0: nat, ghost items: seq<Item>, ghost done0: seq<Item>,
      ghost rest: seq<Item>, ghost before: seq<nat>)
    returns (r: nat, ghost done: seq<Item>)
    requires acCounts.Length == SYMBOLS &&
             CountingAc(items, done0, Zrls(tbl, r0 / 16) + rest, tbl, before, acCounts[..])
    modifies acCounts
    ensures r == r0 % 16 && CountingAc(items, done, rest, tbl, before, acCounts[..])
  {
    r, done := r0, done0;
    while r > 15
      invariant r % 16 == r0 % 16 && CountingAc(items, done, Zrls(tbl, r / 16) + rest, tbl, before, acCounts[..])
    {
      FirstZrl(tbl, r, rest);
      CountStep(items, done, Sym(AC, tbl, 0xF0), Zrls(tbl, (r - 16) / 16) + rest, tbl, before, acCounts[..]);
      CountSym(acCounts, 0xF0);
      done := done + [Sym(AC, tbl, 0xF0)];
      r := r - 16;
    }
    NoZrls(tbl, r, rest);
  }

  method CountCoef(acCounts: array<nat>, tbl: nat, r: nat, v: int, ghost items: seq<Item>, ghost done0: seq<Item>,
      ghost rest: seq<Item>, ghost before: seq<nat>)
    returns (ghost done: seq<Item>)
    requires acCounts.Length == SYMBOLS && v != 0 &&
             CountingAc(items, done0, Coef(tbl, r, v) + rest, tbl, before, acCounts[..])
    modifies acCounts
    ensures CountingAc(items, done, rest, tbl, before, acCounts[..])
  {
    var temp := if v < 0 then -v else v;
    var nbits := CountBits(temp, 1);
    ghost var sym, raw := Sym(AC, tbl, r * 16 + nbits), Raw(Extra(v), nbits);
    assert Coef(tbl, r, v) + rest == [sym] + ([raw] + rest);
    CountStep(items, done0, sym, [raw] + rest, tbl, before, acCounts[..]);
    CountSym(acCounts, r * 16 + nbits);
    done := done0 + [sym];
    CountStep(items, done, raw, rest, tbl, before, acCounts[..]);
    done := done + [raw];
  }

  /** The AC part of htest_one_block. */
  method CountAc(block: Block, o: Order, acCounts: array<nat>, tbl: nat)
    requires acCounts.Length == SYMBOLS && ItemsOk(AcItems(tbl, Ranked(o, block), 1, 0))
    modifies acCounts
    ensures Grown(old(acCounts[..]), acCounts[..], AC, tbl, AcItems(tbl, Ranked(o, block), 1, 0))
  {
    ghost var z, before := Ranked(o, block), acCounts[..];
    ghost var items, done: seq<Item> := AcItems(tbl, z, 1, 0), [];
    assert [] + items == items;
    var r: nat := 0;
    for k := 1 to 64
      invariant CountingAc(items, done, AcItems(tbl, z, k, r), tbl, before, acCounts[..])
    {
      var temp := block[o[k]];
      assert temp == z[k];
      if temp == 0 {
        r := r + 1;
      } else {
        ghost var rest := AcItems(tbl, z, k + 1, 0);
        Grouped(Zrls(tbl, r / 16), Coef(tbl, r % 16, temp), rest);
        r, done := CountZrls(acCounts, tbl, r, items, done, Coef(tbl, r % 16, temp) + rest, before);
        done := CountCoef(acCounts, tbl, r, temp, items, done, rest, before);
        r := 0;
      }
    }
    if r > 0 {
      assert [Sym(AC, tbl, 0)] + [] == [Sym(AC, tbl, 0)];
      CountStep(items, done, Sym(AC, tbl, 0), [], tbl, before, acCounts[..]);
      CountSym(acCounts, 0);
      done := done + [Sym(AC, tbl, 0)];
    }
    assert items == done + [] == done;
  }

  lemma Grouped(a: seq<Item>, b: seq<Item>, c: seq<Item>)
    ensures a + b + c == a + (b + c)
  {
  }

  lemma DcSymbol(tbl: nat, diff: int, counts: seq<nat>)
    requires |counts| == SYMBOLS && ItemsOk(DcItems(tbl, diff))
    ensures Category(diff) < 256
    ensures Grown(counts, counts[Category(diff) := counts[Category(diff)] + 1], DC, tbl, DcItems(tbl, diff))
  {
    var items, sym := DcItems(tbl, diff), Sym(DC, tbl, Category(diff));
    assert items[0] == sym;
    GrownOne(counts, DC, tbl, sym.sym, sym);
    var c := counts[sym.sym := counts[sym.sym] + 1];
    GrownNot(c, DC, tbl, items[1..]);
    GrownMore(counts, c, c, DC, tbl, [sym], items[1..]);
    assert items == [sym] + items[1..];
  }

  predicate OnlyKind(items: seq<Item>, kind: Kind) {
    forall i :: 0 <= i < |items| && items[i].Sym? ==> items[i].kind == kind
  }

  lemma {:induction false} OnlyAc(tbl: nat, z: seq<int>, k: nat, r: nat)
    requires k <= |z|
    ensures OnlyKind(AcItems(tbl, z, k, r), AC)
    decreases |z| - k
  {
    if k == |z| {
    } else if z[k] == 0 {
      OnlyAc(tbl, z, k + 1, r + 1);
    } else {
      ZrlsAc(tbl, r / 16);
      OnlyAc(tbl, z, k + 1, 0);
    }
  }

  lemma {:induction false} ZrlsAc(tbl: nat, n: nat)
    ensures OnlyKind(Zrls(tbl, n), AC)
  {
    if n > 0 { ZrlsAc(tbl, n - 1); }
  }

  /** The DC and AC counts of a block's tables. */
  ghost predicate BlockCounted(dc0: seq<nat>, dc: seq<nat>, ac0: seq<nat>, ac: seq<nat>, dctbl: nat, actbl: nat,
      items: seq<Item>) {
    Grown(dc0, dc, DC, dctbl, items) && Grown(ac0, ac, AC, actbl, items)
  }

  lemma BlockJoins(dc0: seq<nat>, dc: seq<nat>, ac0: seq<nat>, ac: seq<nat>, dctbl: nat, actbl: nat,
      dcItems: seq<Item>, acItems: seq<Item>)
    requires Grown(dc0, dc, DC, dctbl, dcItems) && Grown(ac0, ac, AC, actbl, acItems) && OnlyKind(dcItems, DC) &&
             OnlyKind(acItems, AC)
    ensures BlockCounted(dc0, dc, ac0, ac, dctbl, actbl, dcItems + acItems)
  {
    GrownNot(dc, DC, dctbl, acItems);
    GrownMore(dc0, dc, dc, DC, dctbl, dcItems, acItems);
    GrownNot(ac0, AC, actbl, dcItems);
    GrownMore(ac0, ac0, ac, AC, actbl, dcItems, acItems);
  }

  lemma BlockTally(dc0: seq<nat>, dc: seq<nat>, ac0: seq<nat>, ac: seq<nat>, dctbl: nat, actbl: nat, o: Order,
      block: Block, lastDc: int)
    requires Grown(dc0, dc, DC, dctbl, DcItems(dctbl, block[0] - lastDc)) &&
             Grown(ac0, ac, AC, actbl, AcItems(actbl, Ranked(o, block), 1, 0))
    ensures BlockCounted(dc0, dc, ac0, ac, dctbl, actbl, BlockItems(o, dctbl, actbl, block, lastDc))
  {
    hide BlockCounted, Grown;
    OnlyAc(actbl, Ranked(o, block), 1, 0);
    BlockJoins(dc0, dc, ac0, ac, dctbl, actbl, DcItems(dctbl, block[0] - lastDc),
        AcItems(actbl, Ranked(o, block), 1, 0));
  }

  /** The DC part of htest_one_block. */
  method CountDc(dcCounts: array<nat>, ghost tbl: nat, diff: int)
    requires dcCounts.Length == SYMBOLS && ItemsOk(DcItems(tbl, diff))
    modifies dcCounts
    ensures Grown(old(dcCounts[..]), dcCounts[..], DC, tbl, DcItems(tbl, diff))
  {
    var temp := if diff < 0 then -diff else diff;
    var nbits := CountBits(temp, 0);
    DcSymbol(tbl, diff, dcCounts[..]);
    CountSym(dcCounts, nbits);
  }

  /** htest_one_block. */
  method HTestOneBlock(sc: Scan, c: nat, block: Block, lastDc: int, dcCounts: array<nat>, acCounts: array<nat>)
    requires sc.Valid() && c < |sc.dcTbl| && Codable(block) && -32768 <= lastDc <= 32767
    requires dcCounts.Length == acCounts.Length == SYMBOLS && dcCounts != acCounts
    modifies dcCounts, acCounts
    ensures BlockCounted(old(dcCounts[..]), dcCounts[..], old(acCounts[..]), acCounts[..], sc.dcTbl[c], sc.acTbl[c],
                         BlockItems(sc.order, sc.dcTbl[c], sc.acTbl[c], block, lastDc))
  {
    hide BlockCounted, Grown;
    ghost var dc0, ac0 := dcCounts[..], acCounts[..];
    BlockItemsOk(sc.order, sc.dcTbl[c], sc.acTbl[c], block, lastDc);
    CountDc(dcCounts, sc.dcTbl[c], block[0] - lastDc);
    CountAc(block, sc.order, acCounts, sc.acTbl[c]);
    BlockTally(dc0, dcCounts[..], ac0, acCounts[..], sc.dcTbl[c], sc.acTbl[c], sc.order, block, lastDc);
  }

  // ---- the counts of all tables

  predicate Tables(counts: seq<array<nat>>)
  {
    |counts| == NUM_TBLS && (forall i :: 0 <= i < NUM_TBLS ==> counts[i].Length == SYMBOLS) &&
    forall i, j :: 0 <= i < j < NUM_TBLS ==> counts[i] != counts[j]
  }

  function Contents(counts: seq<array<nat>>): (c: seq<seq<nat>>)
    requires Tables(counts)
    reads counts
    ensures |c| == NUM_TBLS && forall i :: 0 <= i < NUM_TBLS ==> c[i] == counts[i][..]
  {
    [counts[0][..], counts[1][..], counts[2][..], counts[3][..]]
  }

  /** The counts of every table of one kind have grown by its symbols among `items`. */
  ghost predicate AllGrown(before: seq<seq<nat>>, after: seq<seq<nat>>, kind: Kind, items: seq<Item>) {
    |before| == |after| == NUM_TBLS &&
    forall i: nat {:trigger TblNo(i)} :: TblNo(i) ==> Grown(before[i], after[i], kind, i, items)
  }

  /** One table's counts grew by the items of a block, and the others' did not change. */
  lemma AllGrownStep(c0: seq<seq<nat>>, c1: seq<seq<nat>>, c2: seq<seq<nat>>, kind: Kind, tbl: nat, done: seq<Item>,
      items: seq<Item>)
    requires AllGrown(c0, c1, kind, done) && TblNo(tbl) && |c2| == NUM_TBLS && Grown(c1[tbl], c2[tbl], kind, tbl, items)
    requires forall i :: 0 <= i < NUM_TBLS && i != tbl ==> c2[i] == c1[i]
    requires forall i :: 0 <= i < |items| && items[i].Sym? && items[i].kind == kind ==> items[i].tbl == tbl
    ensures AllGrown(c0, c2, kind, done + items)
  {
    forall i: nat {:trigger TblNo(i)} | TblNo(i)
      ensures Grown(c0[i], c2[i], kind, i, done + items)
    {
      if i != tbl { GrownNot(c1[i], kind, i, items); }
      GrownMore(c0[i], c1[i], c2[i], kind, i, done, items);
    }
  }

  predicate OfTables(items: seq<Item>, dctbl: nat, actbl: nat) {
    forall i :: 0 <= i < |items| && items[i].Sym? ==> items[i].tbl == if items[i].kind == DC then dctbl else actbl
  }

  lemma {:induction false} AcOfTable(tbl: nat, z: seq<int>, k: nat, r: nat)
    requires k <= |z|
    ensures forall i ::
              0 <= i < |AcItems(tbl, z, k, r)| && AcItems(tbl, z, k, r)[i].Sym? ==> AcItems(tbl, z, k, r)[i].tbl == tbl
    decreases |z| - k
  {
    if k == |z| {
    } else if z[k] == 0 {
      AcOfTable(tbl, z, k + 1, r + 1);
    } else {
      ZrlsOfTable(tbl, r / 16);
      AcOfTable(tbl, z, k + 1, 0);
    }
  }

  lemma {:induction false} ZrlsOfTable(tbl: nat, n: nat)
    ensures forall i :: 0 <= i < |Zrls(tbl, n)| ==> Zrls(tbl, n)[i] == Sym(AC, tbl, 0xF0)
  {
    if n > 0 { ZrlsOfTable(tbl, n - 1); }
  }

  lemma BlockOfTables(o: Order, dctbl: nat, actbl: nat, b: Block, lastDc: int)
    ensures OfTables(BlockItems(o, dctbl, actbl, b, lastDc), dctbl, actbl)
  {
    AcOfTable(actbl, Ranked(o, b), 1, 0);
    OnlyAc(actbl, Ranked(o, b), 1, 0);
  }

  /** No two of the count arrays are the same. */
  predicate Apart(dcCounts: seq<array<nat>>, acCounts: seq<array<nat>>) {
    Tables(dcCounts) && Tables(acCounts) && forall i, j :: 0 <= i < NUM_TBLS && 0 <= j < NUM_TBLS ==>
        dcCounts[i] != acCounts[j]
  }

  /** Both kinds of counts. */
  ghost predicate Tallied(dc0: seq<seq<nat>>, dc: seq<seq<nat>>, ac0: seq<seq<nat>>, ac: seq<seq<nat>>,
      items: seq<Item>) {
    AllGrown(dc0, dc, DC, items) && AllGrown(ac0, ac, AC, items)
  }

  /** One block of an MCU. */
  method GatherBlock(sc: Scan, c: nat, block: Block, lastDc: int, dcCounts: seq<array<nat>>,
      acCounts: seq<array<nat>>, ghost dc0: seq<seq<nat>>, ghost ac0: seq<seq<nat>>, ghost done: seq<Item>)
    requires sc.Valid() && c < |sc.dcTbl| && Codable(block) && -32768 <= lastDc <= 32767 && Apart(dcCounts, acCounts)
    requires Tallied(dc0, Contents(dcCounts), ac0, Contents(acCounts), done)
    modifies dcCounts, acCounts
    ensures Tallied(dc0, Contents(dcCounts), ac0, Contents(acCounts), done + BlockItems(sc.order, sc.dcTbl[c],
              sc.acTbl[c], block, lastDc))
  {
    ghost var dc1, ac1 := Contents(dcCounts), Contents(acCounts);
    ghost var items := BlockItems(sc.order, sc.dcTbl[c], sc.acTbl[c], block, lastDc);
    HTestOneBlock(sc, c, block, lastDc, dcCounts[sc.dcTbl[c]], acCounts[sc.acTbl[c]]);
    BlockOfTables(sc.order, sc.dcTbl[c], sc.acTbl[c], block, lastDc);
    AllGrownStep(dc0, dc1, Contents(dcCounts), DC, sc.dcTbl[c], done, items);
    AllGrownStep(ac0, ac1, Contents(acCounts), AC, sc.acTbl[c], done, items);
  }

  function Blank(): (c: seq<seq<nat>>)
    ensures |c| == NUM_TBLS &&
            forall i :: 0 <= i < NUM_TBLS ==> |c[i]| == SYMBOLS && forall s :: 0 <= s < SYMBOLS ==> c[i][s] == 0
  {
    seq(NUM_TBLS, _ => seq(SYMBOLS, _ => 0))
  }

  /** The entropy coder object in statistics mode. */
  class Gatherer {
    const sc: Scan
    const dcCounts: seq<array<nat>>
    const acCounts: seq<array<nat>>
    var lastDc: seq<int>
    var restartsToGo: nat

    predicate Valid()
      reads this
    {
      sc.Valid() && Apart(dcCounts, acCounts) && GatherOk(sc, GatherState(lastDc, restartsToGo))
    }

    /** The first `n` MCUs of a run have been counted. */
    ghost predicate Gathered(mcus: seq<Mcu>, n: nat)
      reads this, dcCounts, acCounts
    {
      Valid() && CodableMcus(sc, mcus) && n <= |mcus| && GatherState(lastDc, restartsToGo) == GatherRun(sc, mcus, n) &&
      Tallied(Blank(), Contents(dcCounts), Blank(), Contents(acCounts), RunItems(sc, mcus, n))
    }

    /** start_pass_huff, statistics mode. */
    constructor (sc: Scan, dcCounts: seq<array<nat>>, acCounts: seq<array<nat>>)
      requires sc.Valid() && Apart(dcCounts, acCounts)
      requires forall i, s :: 0 <= i < NUM_TBLS && 0 <= s < SYMBOLS ==> dcCounts[i][s] == 0 && acCounts[i][s] == 0
      ensures this.sc == sc && this.dcCounts == dcCounts && this.acCounts == acCounts
      ensures forall mcus :: CodableMcus(sc, mcus) ==> Gathered(mcus, 0)
    {
      this.sc, this.dcCounts, this.acCounts := sc, dcCounts, acCounts;
      lastDc, restartsToGo := Zeros(|sc.dcTbl|), sc.restartInterval;
      new;
      NothingCounted(Contents(dcCounts), DC);
      NothingCounted(Contents(acCounts), AC);
    }

    /** encode_mcu_gather. */
    method EncodeMcu(mcu: Mcu, ghost mcus: seq<Mcu>, ghost n: nat)
      requires n < |mcus| && Gathered(mcus, n) && mcu == mcus[n]
      modifies this, dcCounts, acCounts
      ensures Gathered(mcus, n + 1)
    {
      ghost var g, items := GatherState(lastDc, restartsToGo), RunItems(sc, mcus, n);
      if sc.restartInterval != 0 {
        if restartsToGo == 0 {
          lastDc := Zeros(|sc.dcTbl|);
          restartsToGo := sc.restartInterval;
        }
        restartsToGo := restartsToGo - 1;
      }
      assert lastDc == NextDc(sc, g) && restartsToGo == NextToGo(sc, g);
      lastDc := GatherBlocks(sc, mcu, lastDc, dcCounts, acCounts, items);
    }
  }

  lemma NothingCounted(c: seq<seq<nat>>, kind: Kind)
    requires |c| == NUM_TBLS &&
             forall i :: 0 <= i < NUM_TBLS ==> |c[i]| == SYMBOLS && forall s :: 0 <= s < SYMBOLS ==> c[i][s] == 0
    ensures AllGrown(Blank(), c, kind, [])
  {
  }

  /** The blocks of an MCU, in order. */
  method GatherBlocks(sc: Scan, mcu: Mcu, lastDc: seq<int>, dcCounts: seq<array<nat>>, acCounts: seq<array<nat>>,
      ghost before: seq<Item>)
    returns (dc: seq<int>)
    requires sc.Valid() && CodableMcu(sc, mcu) && |lastDc| == |sc.dcTbl| && CodableDc(lastDc) &&
             Apart(dcCounts, acCounts)
    requires Tallied(Blank(), Contents(dcCounts), Blank(), Contents(acCounts), before)
    modifies dcCounts, acCounts
    ensures dc == McuDc(sc, mcu, lastDc, 0) && |dc| == |sc.dcTbl| && CodableDc(dc)
    ensures Tallied(Blank(), Contents(dcCounts), Blank(), Contents(acCounts), before + McuItems(sc, mcu, lastDc, 0))
  {
    ghost var items, done := before + McuItems(sc, mcu, lastDc, 0), before;
    dc := lastDc;
    for blkn := 0 to |mcu|
      invariant |dc| == |sc.dcTbl| && CodableDc(dc) && McuDc(sc, mcu, dc, blkn) == McuDc(sc, mcu, lastDc, 0)
      invariant items == done + McuItems(sc, mcu, dc, blkn)
      invariant Tallied(Blank(), Contents(dcCounts), Blank(), Contents(acCounts), done)
    {
      var c := sc.membership[blkn];
      ghost var block := BlockItems(sc.order, sc.dcTbl[c], sc.acTbl[c], mcu[blkn], dc[c]);
      Grouped(done, block, McuItems(sc, mcu, dc[c := mcu[blkn][0]], blkn + 1));
      GatherBlock(sc, c, mcu[blkn], dc[c], dcCounts, acCounts, Blank(), Blank(), done);
      done := done + block;
      dc := dc[c := mcu[blkn][0]];
    }
    assert items == done;
  }
}
