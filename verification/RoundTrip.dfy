/**
 * Decoding undoes encoding: the decoder, fed the coder's bytes and a marker, returns the very
 * blocks that were coded, through byte stuffing, run lengths, DC prediction and restarts.
 */
module RoundTrip {
  import opened Bits
  import opened BitReader
  import opened ByteStuffing
  import opened DerivedTables
  import opened EntropySpec
  import opened HuffDecoder
  import opened HuffmanCodes
  import opened SequentialCoding
  import opened Zigzag

  /** The coder's tables and the decoder's come from the same Huffman tables. */
  ghost predicate Matches(hs: HuffTables, t: CTables) {
    hs.Valid() && t.Valid() &&
    forall i: nat {:trigger TblNo(i)} :: TblNo(i) ==> CDerived(hs.dc[i], t.dc[i]) && CDerived(hs.ac[i], t.ac[i])
  }

  ghost function HuffOf(hs: HuffTables, kind: Kind, tbl: nat): (h: HuffTable)
    requires hs.Valid() && TblNo(tbl)
    ensures h.Valid()
  {
    if kind == DC then hs.Dc(tbl) else hs.Ac(tbl)
  }

  /** The stream shows the bits `b` at `p`. */
  predicate Starts(st: Bits, p: nat, b: Bits) {
    Take(st, p, |b|) == b
  }

  lemma StartsSplit(st: Bits, p: nat, a: Bits, b: Bits)
    ensures Starts(st, p, a + b) <==> Starts(st, p, a) && Starts(st, p + |a|, b)
  {
    TakeSplit(st, p, |a|, |b|);
    var x, y := Take(st, p, |a|), Take(st, p + |a|, |b|);
    assert Take(st, p, |a + b|) == x + y;
    assert (x + y)[..|a|] == x && (a + b)[..|a|] == a;
    assert (x + y)[|a|..] == y && (a + b)[|a|..] == b;
  }

  // ---- one item

  /** A symbol that was sent is the symbol that is read. */
  lemma SymbolReads(hs: HuffTables, t: CTables, it: Item, st: Bits, p: nat, q: nat)
    requires Matches(hs, t) && it.Sym? && SentOne(t, it, st, p, q)
    ensures ReadSymbol(HuffOf(hs, it.kind, it.tbl), st, p) == (it.sym, q - p)
  {
    hide ReadSymbol, Kraft, Count;
    var h, c := HuffOf(hs, it.kind, it.tbl), t.Table(it.kind, it.tbl);
    var l := c.ehufsi[it.sym];
    assert Slot(h, l, c.ehufco[it.sym], it.sym);
    var j := c.ehufco[it.sym] - First(h.bits, l);
    assert Shows(h.bits, st, p, l, j);
    ReadSymbolIs(h, st, p, l, j);
  }

  lemma {:induction false} BitLengthTight(v: nat)
    requires v > 0
    ensures Pow2(BitLength(v) - 1) <= v < Pow2(BitLength(v))
  {
    if v > 1 { BitLengthTight(v / 2); }
  }

  /** Extending the extra bits gives back the value. */
  lemma ExtraReads(v: int, st: Bits, p: nat)
    requires Starts(st, p, ToBits(Extra(v), Category(v)))
    ensures ReadExtra(st, p, Category(v)) == v
  {
    if v != 0 {
      var n := Category(v);
      NumberIsValue(st, p, n);
      ValueToBits(Extra(v), n);
      BitLengthTight(if v < 0 then -v else v);
      if v > 0 { DivUnique(v, Pow2(n), 0, v); } else { DivUnique(v - 1, Pow2(n), -1, v - 1 + Pow2(n)); }
    }
  }

  /** The item could be sent, and the stream shows it from `p` to `q`. */
  ghost predicate SentOne(t: CTables, it: Item, st: Bits, p: nat, q: nat)
    requires t.Valid()
  {
    ItemOk(it) && Sendable(t, it) && Starts(st, p, ItemBits(t, it)) && q == p + |ItemBits(t, it)|
  }

  /** The items could be sent, and the stream shows them from `p` to `q`. */
  ghost predicate Sent(t: CTables, items: seq<Item>, st: Bits, p: nat, q: nat)
    requires t.Valid()
    decreases items, 1
  {
    if items == [] then p == q
    else ItemOk(items[0]) && SentFirst(t, items, st, p, q, p + |ItemBits(t, items[0])|)
  }

  ghost predicate SentFirst(t: CTables, items: seq<Item>, st: Bits, p: nat, q: nat, m: nat)
    requires t.Valid() && items != []
    decreases items, 0
  {
    SentOne(t, items[0], st, p, m) && Sent(t, items[1..], st, m, q)
  }

  /** Items all of which have codes, and whose bits the stream shows, are sent. */
  lemma {:induction false} BitsAreSent(t: CTables, items: seq<Item>, st: Bits, p: nat)
    requires t.Valid() && ItemsOk(items) && AllSendable(t, items) && Starts(st, p, ItemsBits(t, items))
    ensures Sent(t, items, st, p, p + |ItemsBits(t, items)|)
  {
    if items != [] {
      StartsSplit(st, p, ItemBits(t, items[0]), ItemsBits(t, items[1..]));
      BitsAreSent(t, items[1..], st, p + |ItemBits(t, items[0])|);
    }
  }

  lemma {:induction false} SentSplit(t: CTables, a: seq<Item>, b: seq<Item>, st: Bits, p: nat, q: nat) returns (m: nat)
    requires t.Valid() && Sent(t, a + b, st, p, q)
    ensures Sent(t, a, st, p, m) && Sent(t, b, st, m, q)
  {
    if a == [] {
      assert a + b == b;
      m := p;
    } else {
      assert (a + b)[0] == a[0] && (a + b)[1..] == a[1..] + b;
      var m1 := p + |ItemBits(t, a[0])|;
      assert SentFirst(t, a + b, st, p, q, m1);
      m := SentSplit(t, a[1..], b, st, m1, q);
      assert SentFirst(t, a, st, p, m, m1);
    }
  }

  lemma FirstItem(t: CTables, it: Item, rest: seq<Item>, st: Bits, p: nat, q: nat) returns (m: nat)
    requires t.Valid() && Sent(t, [it] + rest, st, p, q)
    ensures SentOne(t, it, st, p, m) && Sent(t, rest, st, m, q)
  {
    assert ([it] + rest)[0] == it && ([it] + rest)[1..] == rest;
    m := p + |ItemBits(t, it)|;
    assert SentFirst(t, [it] + rest, st, p, q, m);
  }

  lemma SingleItem(t: CTables, it: Item, st: Bits, p: nat, q: nat)
    requires t.Valid() && Sent(t, [it], st, p, q)
    ensures SentOne(t, it, st, p, q)
  {
    assert [it] == [it] + [];
    var m := FirstItem(t, it, [], st, p, q);
  }

  // ---- one block

  lemma DcReads(hs: HuffTables, t: CTables, tbl: nat, diff: int, st: Bits, p: nat, q: nat)
    requires Matches(hs, t) && TblNo(tbl) && Sent(t, DcItems(tbl, diff), st, p, q)
    ensures ReadDc(hs.Dc(tbl), st, p) == DcRead(diff, q)
  {
    var a, x := Sym(DC, tbl, Category(diff)), Raw(Extra(diff), Category(diff));
    var m := FirstItem(t, a, if diff == 0 then [] else [x], st, p, q);
    SymbolReads(hs, t, a, st, p, m);
    DcExtraReads(t, x, diff, st, m, q);
    ReadDcIs(hs.Dc(tbl), st, p, a.sym, m, diff, q);
  }

  lemma ReadDcIs(h: HuffTable, st: Bits, p: nat, sym: nat, m: nat, diff: int, q: nat)
    requires h.WellFormed() && p <= m && ReadSymbol(h, st, p) == (sym, m - p) && ReadExtra(st, m, sym) == diff &&
             q == m + sym
    ensures ReadDc(h, st, p) == DcRead(diff, q)
  {
  }

  lemma DcExtraReads(t: CTables, x: Item, diff: int, st: Bits, m: nat, q: nat)
    requires t.Valid() && x == Raw(Extra(diff), Category(diff)) && Sent(t, if diff == 0 then [] else [x], st, m, q)
    ensures q == m + Category(diff) && ReadExtra(st, m, Category(diff)) == diff
  {
    if diff != 0 { SingleItem(t, x, st, m, q); }
    ExtraReads(diff, st, m);
  }

  /** `b` holds the ranked coefficients `z` below rank `k`, and zeros from there on. */
  predicate FilledTo(o: Order, z: seq<int>, k: nat, b: Block) {
    |z| == 64 && k <= 64 &&
    forall j :: 0 <= j < 64 ==> b[o[j]] == if j < k then z[j] else 0
  }

  lemma FillOne(o: Order, z: seq<int>, k: nat, b: Block)
    requires Reorders(o) && k < 64 && FilledTo(o, z, k, b)
    ensures FilledTo(o, z, k + 1, Stored(o, b, k, z[k]))
    ensures z[k] == 0 ==> FilledTo(o, z, k + 1, b)
  {
  }

  lemma NoneSent(t: CTables, st: Bits, p: nat, q: nat)
    requires t.Valid() && Sent(t, [], st, p, q)
    ensures p == q
  {
  }

  lemma {:induction false} SkipZrls(hs: HuffTables, t: CTables, o: Order, tbl: nat, n: nat, st: Bits, p: nat, q: nat,
      k: nat, k2: nat, b: Block)
    requires Matches(hs, t) && TblNo(tbl) && Sent(t, Zrls(tbl, n), st, p, q) && k2 == k + 16 * n < 80
    ensures ReadAc(hs.Ac(tbl), o, st, p, k, b) == ReadAc(hs.Ac(tbl), o, st, q, k2, b)
    decreases n
  {
    hide ReadAc, SentFirst, SentOne, Sent;
    if n == 0 {
      NoneSent(t, st, p, q);
    } else {
      var m := FirstItem(t, Sym(AC, tbl, 0xF0), Zrls(tbl, n - 1), st, p, q);
      SymbolReads(hs, t, Sym(AC, tbl, 0xF0), st, p, m);
      AcStop(hs.Ac(tbl), o, st, p, k, b, 0xF0, m);
      SkipZrls(hs, t, o, tbl, n - 1, st, m, q, k + 16, k2, b);
    }
  }

  /** A coefficient of rank `k2` after `r` zeros, `r` at most fifteen. */
  lemma CoefReads(hs: HuffTables, t: CTables, o: Order, tbl: nat, r: nat, v: int, st: Bits, p: nat, q: nat, k: nat,
      k2: nat, b: Block)
    requires Matches(hs, t) && TblNo(tbl) && r <= 15 && v != 0 && -32767 <= v <= 32767 && k + r == k2 < 64
    requires Sent(t, Coef(tbl, r, v), st, p, q)
    ensures ReadAc(hs.Ac(tbl), o, st, p, k, b) == ReadAc(hs.Ac(tbl), o, st, q, k2 + 1, Stored(o, b, k2, v))
  {
    var n := Category(v);
    CategoryBound(v);
    var a, x := Sym(AC, tbl, r * 16 + n), Raw(Extra(v), n);
    assert Coef(tbl, r, v) == [a] + [x];
    var m := FirstItem(t, a, [x], st, p, q);
    SingleItem(t, x, st, m, q);
    SymbolReads(hs, t, a, st, p, m);
    ExtraReads(v, st, m);
    SixteenSplit(r, n);
    AcCoef(hs.Ac(tbl), o, st, p, k, b, a.sym, m, v, k2 + 1, q, Stored(o, b, k2, v));
  }

  lemma SixteenSplit(r: nat, n: nat)
    requires n < 16
    ensures (r * 16 + n) / 16 == r && (r * 16 + n) % 16 == n
  {
  }

  /** Reading the AC items of a block, with `r` zeros pending before rank `k`. */
  lemma {:induction false} AcReads(hs: HuffTables, t: CTables, o: Order, tbl: nat, z: seq<int>, k: nat, r: nat,
      st: Bits, p: nat, q: nat, b: Block)
    requires Matches(hs, t) && Reorders(o) && TblNo(tbl) && CodableAc(z) && 1 <= k <= 64 && r < k
    requires FilledTo(o, z, k, b) && Sent(t, AcItems(tbl, z, k, r), st, p, q)
    ensures var ac := ReadAc(hs.Ac(tbl), o, st, p, k - r, b);
            FilledTo(o, z, 64, ac.block) && ac.pos == q
    decreases 64 - k
  {
    hide SentFirst, SentOne, FilledTo, Zrls, Coef, Stored, ReadAc;
    if k == 64 {
      AcEndReads(hs, t, o, tbl, z, r, st, p, q, b);
    } else if z[k] == 0 {
      FillOne(o, z, k, b);
      AcReads(hs, t, o, tbl, z, k + 1, r + 1, st, p, q, b);
    } else {
      var m := RunPart(t, tbl, z, k, r, st, p, q);
      RunReads(hs, t, o, tbl, r / 16, r % 16, z[k], st, p, m, k - r, k, b);
      FillOne(o, z, k, b);
      AcReads(hs, t, o, tbl, z, k + 1, 0, st, m, q, Stored(o, b, k, z[k]));
    }
  }

  lemma AcEndReads(hs: HuffTables, t: CTables, o: Order, tbl: nat, z: seq<int>, r: nat, st: Bits, p: nat, q: nat,
      b: Block)
    requires Matches(hs, t) && Reorders(o) && TblNo(tbl) && CodableAc(z) && r < 64 &&
             Sent(t, AcItems(tbl, z, 64, r), st, p, q)
    ensures ReadAc(hs.Ac(tbl), o, st, p, 64 - r, b) == AcRead(b, q)
  {
    if r > 0 {
      SingleItem(t, Sym(AC, tbl, 0), st, p, q);
      SymbolReads(hs, t, Sym(AC, tbl, 0), st, p, q);
      AcStop(hs.Ac(tbl), o, st, p, 64 - r, b, 0, q);
    }
  }

  /** The items of a nonzero coefficient and its zeros come before the rest. */
  lemma RunPart(t: CTables, tbl: nat, z: seq<int>, k: nat, r: nat, st: Bits, p: nat, q: nat) returns (m: nat)
    requires t.Valid() && k < |z| && z[k] != 0 && Sent(t, AcItems(tbl, z, k, r), st, p, q)
    ensures Sent(t, Zrls(tbl, r / 16) + Coef(tbl, r % 16, z[k]), st, p, m) &&
            Sent(t, AcItems(tbl, z, k + 1, 0), st, m, q)
  {
    m := SentSplit(t, Zrls(tbl, r / 16) + Coef(tbl, r % 16, z[k]), AcItems(tbl, z, k + 1, 0), st, p, q);
  }

  /** A coefficient of rank `k` after 16n + r1 zeros from rank `k0` on. */
  lemma RunReads(hs: HuffTables, t: CTables, o: Order, tbl: nat, n: nat, r1: nat, v: int, st: Bits, p: nat, q: nat,
      k0: nat, k: nat, b: Block)
    requires Matches(hs, t) && TblNo(tbl) && v != 0 && -32767 <= v <= 32767 && r1 < 16 && k0 + 16 * n + r1 == k < 64
    requires Sent(t, Zrls(tbl, n) + Coef(tbl, r1, v), st, p, q)
    ensures ReadAc(hs.Ac(tbl), o, st, p, k0, b) == ReadAc(hs.Ac(tbl), o, st, q, k + 1, Stored(o, b, k, v))
  {
    var m := SentSplit(t, Zrls(tbl, n), Coef(tbl, r1, v), st, p, q);
    var k1 := k - r1;
    SkipZrls(hs, t, o, tbl, n, st, p, m, k0, k1, b);
    CoefReads(hs, t, o, tbl, r1, v, st, m, q, k1, k, b);
  }

  lemma ClearedBlock(o: Order, b: Block)
    requires Reorders(o) && Codable(b)
    ensures ToShort(b[0]) == b[0] && FilledTo(o, Ranked(o, b), 1, DcBlock(b[0]))
  {
  }

  lemma FullBlock(o: Order, b: Block, b': Block)
    requires Reorders(o) && FilledTo(o, Ranked(o, b), 64, b')
    ensures b' == b
  {
    assert Ranked(o, b') == Ranked(o, b);
    SameBlock(o, b', b);
  }

  /** A block that was sent is the block that is read. */
  lemma BlockReads(hs: HuffTables, t: CTables, o: Order, dctbl: nat, actbl: nat, b: Block, lastDc: int, st: Bits,
      p: nat, q: nat)
    requires Matches(hs, t) && Reorders(o) && TblNo(dctbl) && TblNo(actbl) && Codable(b) && -32768 <= lastDc <= 32767
    requires Sent(t, BlockItems(o, dctbl, actbl, b, lastDc), st, p, q)
    ensures ReadBlock(hs.Dc(dctbl), hs.Ac(actbl), o, st, p, lastDc) == BlockRead(b, b[0], q)
  {
    hide ReadAc, ReadDc, Sent, AcItems, DcItems;
    BlockItemsOk(o, dctbl, actbl, b, lastDc);
    var m := SentSplit(t, DcItems(dctbl, b[0] - lastDc), AcItems(actbl, Ranked(o, b), 1, 0), st, p, q);
    DcReads(hs, t, dctbl, b[0] - lastDc, st, p, m);
    ClearedBlock(o, b);
    AcReads(hs, t, o, actbl, Ranked(o, b), 1, 0, st, m, q, DcBlock(b[0]));
    FullBlock(o, b, ReadAc(hs.Ac(actbl), o, st, m, 1, DcBlock(b[0])).block);
    BlockParts(hs.Dc(dctbl), hs.Ac(actbl), o, st, p, lastDc);
  }

  // ---- one MCU

  predicate AllWanted(want: seq<Wanted>) {
    forall c :: 0 <= c < |want| ==> want[c] == Wanted(true, true)
  }

  /** What is delivered of a block: its DC coefficient if its component is needed, its AC coefficients if
      they are wanted too, and zeros for the rest. */
  predicate DeliversBlock(w: Wanted, b: Block, d: Block) {
    forall k :: 0 <= k < 64 ==> d[k] == if w.needed && (w.ac || k == 0) then b[k] else 0
  }

  /** The same for the blocks of an MCU from `blkn` on. */
  predicate DeliversFrom(sc: Scan, want: seq<Wanted>, mcu: Mcu, blkn: nat, blocks: seq<Block>)
    requires sc.Valid() && |want| == |sc.dcTbl|
  {
    |mcu| == |sc.membership| && |blocks| + blkn == |mcu| &&
    forall b: nat :: b < |blocks| ==> DeliversBlock(want[sc.membership[blkn + b]], mcu[blkn + b], blocks[b])
  }

  predicate Delivers(sc: Scan, want: seq<Wanted>, mcu: Mcu, blocks: seq<Block>)
    requires sc.Valid() && |want| == |sc.dcTbl|
  {
    DeliversFrom(sc, want, mcu, 0, blocks)
  }

  /** A decoder that wants everything gets everything. */
  lemma AllDelivered(sc: Scan, want: seq<Wanted>, mcu: Mcu, blocks: seq<Block>)
    requires sc.Valid() && |want| == |sc.dcTbl| && AllWanted(want) && Delivers(sc, want, mcu, blocks)
    ensures blocks == mcu
  {
    forall b: nat | b < |mcu|
      ensures blocks[b] == mcu[b]
    {
      assert DeliversBlock(want[sc.membership[0 + b]], mcu[0 + b], blocks[b]);
    }
  }

  /** The decoder predicts the components it needs as the coder does. */
  predicate DcFollows(want: seq<Wanted>, dec: seq<int>, cod: seq<int>) {
    |want| == |dec| == |cod| && forall c :: 0 <= c < |want| && want[c].needed ==> dec[c] == cod[c]
  }

  /** Where a block ends does not depend on its prediction. */
  lemma BlockPosition(hdc: HuffTable, hac: HuffTable, o: Order, st: Bits, p: nat, x: int, y: int)
    requires hdc.WellFormed() && hac.WellFormed()
    ensures ReadBlock(hdc, hac, o, st, p, x).pos == ReadBlock(hdc, hac, o, st, p, y).pos
  {
    hide ReadAc, ReadDc, ReadBlock, DcBlock;
    BlockParts(hdc, hac, o, st, p, x);
    BlockParts(hdc, hac, o, st, p, y);
    var d := ReadDc(hdc, st, p);
    AcPosition(hac, o, st, d.pos, 1, DcBlock(ToShort(d.diff + x)), DcBlock(ToShort(d.diff + y)));
  }

  lemma GotDelivers(w: Wanted, b: Block, full: BlockRead)
    requires Codable(b) && (w.needed ==> full.block == b && full.dc == b[0])
    ensures DeliversBlock(w, b, GotBlock(w, full))
  {
  }

  /** One block, by a decoder with predictions of its own for what it does not need. */
  lemma BlockDelivered(hs: HuffTables, sc: Scan, want: seq<Wanted>, mcu: Mcu, cod: seq<int>, dec: seq<int>, blkn: nat,
      st: Bits, p: nat, m: nat)
    requires sc.Valid() && hs.Valid() && CodableMcu(sc, mcu) && blkn < |mcu| && |want| == |sc.dcTbl| == |cod|
    requires DcFollows(want, dec, cod) && ReadBlockAt(sc, hs, st, p, cod, blkn) == BlockRead(mcu[blkn], mcu[blkn][0], m)
    ensures var c, full := sc.membership[blkn], ReadBlockAt(sc, hs, st, p, dec, blkn);
            full.pos == m && DeliversBlock(want[c], mcu[blkn], GotBlock(want[c], full)) &&
            DcFollows(want, dec[c := GotDc(want[c], full, dec[c])], cod[c := mcu[blkn][0]])
  {
    hide ReadBlock, GotBlock, DeliversBlock, Codable;
    var c := sc.membership[blkn];
    BlockPosition(hs.Dc(sc.dcTbl[c]), hs.Ac(sc.acTbl[c]), sc.order, st, p, cod[c], dec[c]);
    GotDelivers(want[c], mcu[blkn], ReadBlockAt(sc, hs, st, p, dec, blkn));
  }

  /** An MCU that was sent is what is read of it, as far as it is wanted. */
  lemma {:induction false} McuReads(hs: HuffTables, t: CTables, sc: Scan, want: seq<Wanted>, mcu: Mcu,
      lastDc: seq<int>, dec: seq<int>, blkn: nat, st: Bits, p: nat, q: nat)
    requires Matches(hs, t) && sc.Valid() && CodableMcu(sc, mcu) && |want| == |lastDc| == |sc.dcTbl| &&
             CodableDc(lastDc) && DcFollows(want, dec, lastDc)
    requires blkn <= |mcu| && Sent(t, McuItems(sc, mcu, lastDc, blkn), st, p, q)
    ensures var m := ReadMcu(sc, hs, want, st, p, dec, blkn);
            m.pos == q && DeliversFrom(sc, want, mcu, blkn, m.blocks) &&
            DcFollows(want, m.lastDc, McuDc(sc, mcu, lastDc, blkn))
    decreases |mcu| - blkn
  {
    hide Sent, SentOne, ReadBlock, ReadBlockAt, BlockItems, ItemsOk, DcFollows, GotBlock, GotDc, DeliversBlock;
    if blkn < |mcu| {
      var c, dc := sc.membership[blkn], lastDc[sc.membership[blkn] := mcu[blkn][0]];
      var m := McuBlockReads(hs, t, sc, mcu, lastDc, dc, blkn, st, p, q);
      FollowsWidth(want, dec, lastDc);
      BlockDelivered(hs, sc, want, mcu, lastDc, dec, blkn, st, p, m);
      var full := ReadBlockAt(sc, hs, st, p, dec, blkn);
      var dec' := dec[c := GotDc(want[c], full, dec[c])];
      McuReads(hs, t, sc, want, mcu, dc, dec', blkn + 1, st, m, q);
      OneMoreDelivered(sc, want, mcu, blkn, GotBlock(want[c], full),
          ReadMcu(sc, hs, want, st, m, dec', blkn + 1).blocks);
    } else {
      NoneSent(t, st, p, q);
    }
  }

  lemma FollowsWidth(want: seq<Wanted>, dec: seq<int>, cod: seq<int>)
    requires DcFollows(want, dec, cod)
    ensures |dec| == |cod| == |want|
  {
  }

  lemma OneMoreDelivered(sc: Scan, want: seq<Wanted>, mcu: Mcu, blkn: nat, b: Block, rest: seq<Block>)
    requires sc.Valid() && |want| == |sc.dcTbl| && blkn < |mcu| && DeliversFrom(sc, want, mcu, blkn + 1, rest)
    requires DeliversBlock(want[sc.membership[blkn]], mcu[blkn], b)
    ensures DeliversFrom(sc, want, mcu, blkn, [b] + rest)
  {
    hide DeliversBlock;
    forall i: nat | i < |[b] + rest|
      ensures DeliversBlock(want[sc.membership[blkn + i]], mcu[blkn + i], ([b] + rest)[i])
    {
      if i > 0 {
        var k := i - 1;
        assert DeliversBlock(want[sc.membership[blkn + 1 + k]], mcu[blkn + 1 + k], rest[k]);
        assert blkn + 1 + k == blkn + i;
      }
    }
  }

  lemma McuBlockReads(hs: HuffTables, t: CTables, sc: Scan, mcu: Mcu, lastDc: seq<int>, dc: seq<int>, blkn: nat,
      st: Bits, p: nat, q: nat)
    returns (m: nat)
    requires Matches(hs, t) && sc.Valid() && CodableMcu(sc, mcu) && |lastDc| == |sc.dcTbl| && CodableDc(lastDc)
    requires blkn < |mcu| && dc == lastDc[sc.membership[blkn] := mcu[blkn][0]] &&
             Sent(t, McuItems(sc, mcu, lastDc, blkn), st, p, q)
    ensures ReadBlockAt(sc, hs, st, p, lastDc, blkn) == BlockRead(mcu[blkn], mcu[blkn][0], m)
    ensures Sent(t, McuItems(sc, mcu, dc, blkn + 1), st, m, q)
  {
    var c := sc.membership[blkn];
    m := SentSplit(t, BlockItems(sc.order, sc.dcTbl[c], sc.acTbl[c], mcu[blkn], lastDc[c]),
        McuItems(sc, mcu, dc, blkn + 1), st, p, q);
    BlockReads(hs, t, sc.order, sc.dcTbl[c], sc.acTbl[c], mcu[blkn], lastDc[c], st, p, m);
  }

  // ---- a whole scan

  /** Every byte still to come when the coder is in state `s`: the MCUs, the flushed tail, and
      what follows the scan. */
  function Coming(sc: Scan, t: CTables, s: CoderState, mcus: seq<Mcu>, tail: seq<Byte>): seq<Byte>
    requires sc.Valid() && t.Valid() && StateOk(sc, s) && CodableMcus(sc, mcus)
    decreases |mcus|
  {
    if mcus == [] then Flushed(s.pending) + tail
    else McuBytes(sc, t, s, mcus[0]) + Coming(sc, t, NextState(sc, t, s, mcus[0]), mcus[1..], tail)
  }

  /** The same, once a restart that is due has been sent. */
  function ComingMcu(sc: Scan, t: CTables, s: CoderState, mcus: seq<Mcu>, tail: seq<Byte>): seq<Byte>
    requires sc.Valid() && t.Valid() && StateOk(sc, s) && CodableMcus(sc, mcus) && mcus != []
  {
    Packed(AfterRestart(sc, s).pending + ItemsBits(t, NextItems(sc, s, mcus[0]))) +
    Coming(sc, t, NextState(sc, t, s, mcus[0]), mcus[1..], tail)
  }

  predicate EndsInMarker(tail: seq<Byte>) {
    |tail| >= 2 && tail[0] == 0xFF && tail[1] != 0 && tail[1] != 0xFF
  }

  lemma MarkerTail(tail: seq<Byte>)
    requires EndsInMarker(tail)
    ensures HasMarker(tail) && DataBits(tail) == [] && MarkerCode(tail) == tail[1] && AfterMarker(tail) == tail[2..]
  {
    assert SkipFill(tail[1..]) == 0;
    assert SkipFill(tail) == 1;
  }

  /** Packed bits in front of a stream that ends in a marker change neither the marker nor what
      lies beyond it. */
  lemma {:induction false} PackedMarker(b: Bits, rest: seq<Byte>)
    requires HasMarker(rest)
    ensures HasMarker(Packed(b) + rest)
    ensures MarkerCode(Packed(b) + rest) == MarkerCode(rest) && AfterMarker(Packed(b) + rest) == AfterMarker(rest)
  {
    if |b| < 8 {
      assert Packed(b) + rest == rest;
    } else {
      var v, more := Octet(b[..8]), Packed(b[8..]) + rest;
      assert Packed(b) + rest == StuffedByte(v) + more;
      PackedMarker(b[8..], rest);
      StuffedMarker(v, more);
    }
  }

  lemma StuffedMarker(v: Byte, more: seq<Byte>)
    requires HasMarker(more)
    ensures HasMarker(StuffedByte(v) + more)
    ensures MarkerCode(StuffedByte(v) + more) == MarkerCode(more) &&
            AfterMarker(StuffedByte(v) + more) == AfterMarker(more)
  {
    var s := StuffedByte(v) + more;
    if v == 0xFF {
      assert s[1..][0] == 0 && SkipFill(s[1..]) == 0;
      assert SkipFill(s) == 1 && s[2..] == more;
    } else {
      assert s[1..] == more;
    }
  }

  lemma StartsBehind(w: Bits, st: Bits, b: Bits)
    requires Starts(st, 0, b)
    ensures Starts(w + st, 0, w + b)
  {
    forall i | |w| <= i < |w + b|
      ensures Bit(w + st, i) == (w + b)[i]
    {
      assert Take(st, 0, |b|)[i - |w|] == b[i - |w|];
    }
  }

  /** A packed segment begins with its pending bits. */
  lemma PackedStarts(pending: Bits, b: Bits, rest: seq<Byte>)
    requires Starts(DataBits(rest), 0, Tail(pending + b))
    ensures Starts(DataBits(Packed(pending + b) + rest), 0, pending) &&
            Starts(DataBits(Packed(pending + b) + rest), |pending|, b)
  {
    hide Packed, DataBits;
    var all := pending + b;
    Unpack(all, rest);
    TailIs(all);
    assert all == Whole(all) + Tail(all);
    var st := DataBits(Packed(all) + rest);
    StartsBehind(Whole(all), DataBits(rest), Tail(all));
    StartsSplit(st, 0, pending, b);
  }

  /** A flushed segment begins with its pending bits. */
  lemma FlushedStarts(pending: Bits, rest: seq<Byte>)
    requires |pending| < 8
    ensures Starts(DataBits(Flushed(pending) + rest), 0, pending)
  {
    var all := pending + ToBits(0x7F, 7);
    if pending != [] {
      UnpackByte(all, rest);
      PrefixStarts(all[..8] + DataBits(Packed(all[8..]) + rest), pending);
    }
  }

  lemma PrefixStarts(st: Bits, b: Bits)
    requires |b| <= |st| && st[..|b|] == b
    ensures Starts(st, 0, b)
  {
    forall i | 0 <= i < |b|
      ensures Take(st, 0, |b|)[i] == b[i]
    {
      assert st[..|b|][i] == st[i];
    }
  }

  /** A restart: its marker ends the flushed segment. */
  lemma RestartMarker(s: CoderState, y: seq<Byte>)
    requires s.nextRestart < 8
    ensures var x := RestartBytes(s) + y;
            HasMarker(x) && MarkerCode(x) == RST0 + s.nextRestart && AfterMarker(x) == y
  {
    var tail := [0xFF, RST0 + s.nextRestart] + y;
    MarkerTail(tail);
    assert tail[2..] == y;
    PackedMarker(s.pending + ToBits(0x7F, 7), tail);
    assert RestartBytes(s) + y == Flushed(s.pending) + tail;
  }

  /** The bytes to come run into a marker, and begin with the pending bits. */
  ghost predicate WellBegun(pending: Bits, x: seq<Byte>) {
    HasMarker(x) && Starts(DataBits(x), 0, pending)
  }

  lemma {:induction false} ComingStarts(sc: Scan, t: CTables, s: CoderState, mcus: seq<Mcu>, tail: seq<Byte>)
    requires sc.Valid() && t.Valid() && StateOk(sc, s) && CodableMcus(sc, mcus) && EndsInMarker(tail)
    ensures WellBegun(s.pending, Coming(sc, t, s, mcus, tail))
    decreases |mcus|
  {
    if mcus == [] {
      FlushedBegins(s.pending, tail);
    } else {
      ComingStarts(sc, t, NextState(sc, t, s, mcus[0]), mcus[1..], tail);
      ComingMcuStarts(sc, t, s, mcus, tail);
      ComingSplits(sc, t, s, mcus, tail);
      var y := ComingMcu(sc, t, s, mcus, tail);
      if RestartDue(sc, s) {
        RestartBegins(s, y);
      } else {
        assert [] + y == y;
      }
    }
  }

  lemma FlushedBegins(pending: Bits, tail: seq<Byte>)
    requires |pending| < 8 && EndsInMarker(tail)
    ensures WellBegun(pending, Flushed(pending) + tail)
  {
    MarkerTail(tail);
    PackedMarker(pending + ToBits(0x7F, 7), tail);
    FlushedStarts(pending, tail);
  }

  lemma RestartBegins(s: CoderState, y: seq<Byte>)
    requires s.nextRestart < 8 && |s.pending| < 8
    ensures WellBegun(s.pending, RestartBytes(s) + y)
  {
    var tail := [0xFF, RST0 + s.nextRestart] + y;
    FlushedBegins(s.pending, tail);
    assert RestartBytes(s) + y == Flushed(s.pending) + tail;
  }

  lemma ComingMcuStarts(sc: Scan, t: CTables, s: CoderState, mcus: seq<Mcu>, tail: seq<Byte>)
    requires sc.Valid() && t.Valid() && StateOk(sc, s) && CodableMcus(sc, mcus) && mcus != []
    requires WellBegun(NextState(sc, t, s, mcus[0]).pending, Coming(sc, t, NextState(sc, t, s, mcus[0]), mcus[1..],
               tail))
    ensures WellBegun(AfterRestart(sc, s).pending, ComingMcu(sc, t, s, mcus, tail))
    ensures Starts(DataBits(ComingMcu(sc, t, s, mcus, tail)), |AfterRestart(sc, s).pending|,
              ItemsBits(t, NextItems(sc, s, mcus[0])))
  {
    var z := Coming(sc, t, NextState(sc, t, s, mcus[0]), mcus[1..], tail);
    var bits, p := ItemsBits(t, NextItems(sc, s, mcus[0])), AfterRestart(sc, s).pending;
    PackedMarker(p + bits, z);
    PackedStarts(p, bits, z);
  }

  lemma ComingSplits(sc: Scan, t: CTables, s: CoderState, mcus: seq<Mcu>, tail: seq<Byte>)
    requires sc.Valid() && t.Valid() && StateOk(sc, s) && CodableMcus(sc, mcus) && mcus != []
    ensures Coming(sc, t, s, mcus, tail) ==
            (if RestartDue(sc, s) then RestartBytes(s) else []) + ComingMcu(sc, t, s, mcus, tail)
  {
  }

  /** Decoder and coder in step: the decoder stands behind the bits pending in the coder, in the
      stream of the bytes `x` still to come, and their DC values, as far as needed, and restart counts agree. */
  ghost predicate InStep(sc: Scan, want: seq<Wanted>, s: CoderState, d: DecoderState, x: seq<Byte>) {
    At(d.r, DataBits(x), |s.pending|) && HasMarker(x) && d.r.Terminated() &&
    d.r.NextMarker() == MarkerCode(x) && d.r.Beyond() == AfterMarker(x) &&
    DcFollows(want, d.lastDc, s.lastDc) && CountsAgree(sc, s, d)
  }

  /** The state the decoder loads before an MCU stands where the coder stands behind a restart. */
  ghost predicate LoadedInStep(sc: Scan, want: seq<Wanted>, s: CoderState, d: DecoderState, y: seq<Byte>) {
    d.Ready(sc) && DcFollows(want, d.Dc(sc), AfterRestart(sc, s).lastDc) && HasMarker(y) &&
    d.Marker(sc) == MarkerCode(y) &&
    d.Beyond(sc) == AfterMarker(y) &&
    forall i: nat :: Bit(d.Stream(sc), i) == Bit(DataBits(y), |AfterRestart(sc, s).pending| + i)
  }

  /** In step before an MCU means in step after the restart that may come first. */
  lemma InStepAfterRestart(sc: Scan, want: seq<Wanted>, s: CoderState, d: DecoderState, y: seq<Byte>)
    requires StateOk(sc, s) && HasMarker(y) && |want| == |sc.dcTbl|
    requires InStep(sc, want, s, d, (if RestartDue(sc, s) then RestartBytes(s) else []) + y)
    ensures LoadedInStep(sc, want, s, d, y)
  {
    hide DataBits, Flushed, SkipFill, MarkerCode, AfterMarker;
    if RestartDue(sc, s) {
      RestartMarker(s, y);
    } else {
      assert [] + y == y;
    }
  }

  lemma BitPast(w: Bits, d: Bits, j: nat, p: nat)
    requires p == |w| + j
    ensures Bit(w + d, p) == Bit(d, j)
  {
  }

  lemma WholeAndTail(b: Bits)
    ensures |Whole(b)| + |Tail(b)| == |b|
  {
    TailIs(b);
  }

  /** Moving a position past packed bits. */
  lemma PastPacked(b: Bits, z: seq<Byte>, p: nat, q: nat)
    requires p >= |b| && q == p - |b| + |Tail(b)|
    ensures Bit(DataBits(Packed(b) + z), p) == Bit(DataBits(z), q)
  {
    Unpack(b, z);
    WholeAndTail(b);
    BitPast(Whole(b), DataBits(z), q, p);
  }

  lemma StartsShift(x: Bits, y: Bits, n: nat, b: Bits)
    requires (forall i: nat :: Bit(x, i) == Bit(y, n + i)) && Starts(y, n, b)
    ensures Starts(x, 0, b)
  {
    assert Take(x, 0, |b|) == Take(y, n, |b|);
  }

  /** One MCU keeps decoder and coder in step, and comes out as it went in, as far as it is wanted. */
  lemma McuInStep(hs: HuffTables, t: CTables, sc: Scan, want: seq<Wanted>, s: CoderState, mcus: seq<Mcu>,
      tail: seq<Byte>, d: DecoderState, d': DecoderState, blocks: seq<Block>)
    requires Matches(hs, t) && sc.Valid() && StateOk(sc, s) && CodableMcus(sc, mcus) && mcus != [] && EndsInMarker(tail)
    requires |want| == |sc.dcTbl| && AllSendable(t, NextItems(sc, s, mcus[0]))
    requires InStep(sc, want, s, d, Coming(sc, t, s, mcus, tail)) && d.Ready(sc)
    requires ReadOne(sc, hs, want, d, d', blocks, d.Stream(sc)) && SameEnd(sc, d, d')
    ensures Delivers(sc, want, mcus[0], blocks)
    ensures InStep(sc, want, NextState(sc, t, s, mcus[0]), d', Coming(sc, t, NextState(sc, t, s, mcus[0]), mcus[1..],
              tail))
  {
    hide ItemsBits, DataBits, Packed, Flushed;
    var s2 := NextState(sc, t, s, mcus[0]);
    var z := Coming(sc, t, s2, mcus[1..], tail);
    var y := ComingMcu(sc, t, s, mcus, tail);
    ComingStarts(sc, t, s2, mcus[1..], tail);
    ComingMcuStarts(sc, t, s, mcus, tail);
    ComingSplits(sc, t, s, mcus, tail);
    InStepAfterRestart(sc, want, s, d, y);
    LoadedReads(hs, t, sc, want, s, mcus[0], d, y);
    AfterOne(hs, t, sc, want, s, mcus[0], d, d', blocks, y, z);
  }

  /** The state after an MCU has been read, from what was read. */
  lemma AfterOne(hs: HuffTables, t: CTables, sc: Scan, want: seq<Wanted>, s: CoderState, mcu: Mcu, d: DecoderState,
      d': DecoderState, blocks: seq<Block>, y: seq<Byte>, z: seq<Byte>)
    requires Matches(hs, t) && sc.Valid() && StateOk(sc, s) && CodableMcu(sc, mcu) &&
             |want| == |d.lastDc| == |sc.dcTbl| && HasMarker(z)
    requires y == Packed(AfterRestart(sc, s).pending + ItemsBits(t, NextItems(sc, s, mcu))) + z
    requires LoadedInStep(sc, want, s, d, y) && CountsAgree(sc, s, d)
    requires ReadOne(sc, hs, want, d, d', blocks, d.Stream(sc)) && SameEnd(sc, d, d')
    requires var m := ReadMcu(sc, hs, want, d.Stream(sc), 0, d.Dc(sc), 0);
             m.pos == |ItemsBits(t, NextItems(sc, s, mcu))| && Delivers(sc, want, mcu, m.blocks) &&
             DcFollows(want, m.lastDc, McuDc(sc, mcu, AfterRestart(sc, s).lastDc, 0))
    ensures Delivers(sc, want, mcu, blocks) && InStep(sc, want, NextState(sc, t, s, mcu), d', z)
  {
    hide Packed, ItemsBits, DataBits, ReadMcu, Starts, ItemsOk, Delivers, DcFollows, CodableMcu;
    var p, bits := AfterRestart(sc, s).pending, ItemsBits(t, NextItems(sc, s, mcu));
    StepPast(d'.r, d.Stream(sc), y, p, bits, z);
    PackedMarker(p + bits, z);
    CountsStep(t, sc, s, mcu, d, d');
  }

  /** Both count MCUs and restarts alike. */
  predicate CountsAgree(sc: Scan, s: CoderState, d: DecoderState) {
    d.nextRestart < 8 && (sc.restartInterval > 0 ==> d.toGo == s.toGo && d.nextRestart == s.nextRestart)
  }

  lemma CountsStep(t: CTables, sc: Scan, s: CoderState, mcu: Mcu, d: DecoderState, d': DecoderState)
    requires sc.Valid() && t.Valid() && StateOk(sc, s) && CodableMcu(sc, mcu) && CountsAgree(sc, s, d)
    requires d'.toGo == ((if d.Due(sc) then sc.restartInterval else d.toGo) - 1) % 0x1_0000_0000
    requires d'.nextRestart == (if d.Due(sc) then (d.nextRestart + 1) % 8 else d.nextRestart)
    ensures CountsAgree(sc, NextState(sc, t, s, mcu), d')
  {
  }

  /** From a loaded state, the stream spells the MCU that was sent. */
  lemma LoadedReads(hs: HuffTables, t: CTables, sc: Scan, want: seq<Wanted>, s: CoderState, mcu: Mcu,
      d: DecoderState, y: seq<Byte>)
    requires Matches(hs, t) && sc.Valid() && StateOk(sc, s) && CodableMcu(sc, mcu) && |want| == |sc.dcTbl|
    requires AllSendable(t, NextItems(sc, s, mcu)) && LoadedInStep(sc, want, s, d, y)
    requires Starts(DataBits(y), |AfterRestart(sc, s).pending|, ItemsBits(t, NextItems(sc, s, mcu)))
    ensures |d.Dc(sc)| == |sc.dcTbl|
    ensures var m := ReadMcu(sc, hs, want, d.Stream(sc), 0, d.Dc(sc), 0);
            m.pos == |ItemsBits(t, NextItems(sc, s, mcu))| && Delivers(sc, want, mcu, m.blocks) &&
            DcFollows(want, m.lastDc, McuDc(sc, mcu, AfterRestart(sc, s).lastDc, 0))
  {
    hide ReadMcu, McuItems, ItemsBits, Sent, Starts, DataBits, ReadBlockAt;
    var items := NextItems(sc, s, mcu);
    StartsShift(d.Stream(sc), DataBits(y), |AfterRestart(sc, s).pending|, ItemsBits(t, items));
    BitsAreSent(t, items, d.Stream(sc), 0);
    McuReads(hs, t, sc, want, mcu, AfterRestart(sc, s).lastDc, d.Dc(sc), 0, d.Stream(sc), 0, |ItemsBits(t, items)|);
  }

  lemma StepPast(r: Reader, st: Bits, y: seq<Byte>, pending: Bits, bits: Bits, z: seq<Byte>)
    requires y == Packed(pending + bits) + z && At(r, st, |bits|) && r.Terminated()
    requires forall i: nat :: Bit(st, i) == Bit(DataBits(y), |pending| + i)
    ensures At(r, DataBits(z), |Tail(pending + bits)|)
  {
    hide Packed, DataBits, Whole;
    var b := pending + bits;
    forall p: nat, q: nat | p >= |b| && q == p - |b| + |Tail(b)|
      ensures Bit(DataBits(y), p) == Bit(DataBits(z), q)
    {
      PastPacked(b, z, p, q);
    }
    Realign(r.Pending(), st, DataBits(y), DataBits(z), |bits|, |pending|, |b|, |Tail(b)|);
  }

  /** Three streams, each a shift of the next. */
  lemma Realign(a: Bits, b: Bits, c: Bits, d: Bits, m: nat, n: nat, l: nat, k: nat)
    requires forall i: nat :: Bit(a, i) == Bit(b, m + i)
    requires forall i: nat :: Bit(b, i) == Bit(c, n + i)
    requires l == n + m && forall p: nat, q: nat :: p >= l && q == p - l + k ==> Bit(c, p) == Bit(d, q)
    ensures forall i: nat :: Bit(a, i) == Bit(d, k + i)
  {
    forall i: nat
      ensures Bit(a, i) == Bit(d, k + i)
    {
      var j, p, q := m + i, l + i, k + i;
      assert Bit(b, j) == Bit(c, n + j);
      assert Bit(c, p) == Bit(d, q);
    }
  }
}
