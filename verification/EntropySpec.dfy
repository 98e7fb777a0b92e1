/**
 * What sequential Huffman coding sends for a block and for an MCU (ITU-T T.81, F.1.2): a run
 * of Huffman symbols and extra bits. The output pass, the statistics pass and the decoder
 * are all measured against it.
 */
module EntropySpec {
  import opened Bits
  import opened DerivedTables
  import opened Zigzag

  datatype Kind = DC | AC

  /** A Huffman symbol of one table, or `n` literal bits of `value`. */
  datatype Item = Sym(kind: Kind, tbl: nat, sym: nat) | Raw(value: int, n: nat)

  /** The magnitude category of a value: how many bits its absolute value needs. */
  function Category(v: int): nat {
    BitLength(if v < 0 then -v else v)
  }

  function BitLength(v: nat): nat {
    if v == 0 then 0 else 1 + BitLength(v / 2)
  }

  /** The number whose low bits follow the symbol: the value, or one less than a negative one. */
  function Extra(v: int): int {
    if v < 0 then v - 1 else v
  }

  function DcItems(tbl: nat, diff: int): seq<Item> {
    [Sym(DC, tbl, Category(diff))] + (if diff == 0 then [] else [Raw(Extra(diff), Category(diff))])
  }

  function Zrls(tbl: nat, n: nat): seq<Item> {
    if n == 0 then [] else [Sym(AC, tbl, 0xF0)] + Zrls(tbl, n - 1)
  }

  /** The AC items of the ranked coefficients `z` from rank `k` on, with `r` zeros pending. */
  function AcItems(tbl: nat, z: seq<int>, k: nat, r: nat): seq<Item>
    requires k <= |z|
    decreases |z| - k
  {
    if k == |z| then
      if r > 0 then [Sym(AC, tbl, 0)] else []
    else if z[k] == 0 then AcItems(tbl, z, k + 1, r + 1)
    else Zrls(tbl, r / 16) + Coef(tbl, r % 16, z[k]) + AcItems(tbl, z, k + 1, 0)
  }

  function Coef(tbl: nat, r: nat, v: int): seq<Item> {
    [Sym(AC, tbl, r * 16 + Category(v)), Raw(Extra(v), Category(v))]
  }

  function BlockItems(o: Order, dctbl: nat, actbl: nat, b: Block, lastDc: int): seq<Item> {
    DcItems(dctbl, b[0] - lastDc) + AcItems(actbl, Ranked(o, b), 1, 0)
  }

  // ---- MCUs

  const NUM_TBLS := 4

  predicate TblNo(i: nat) { i < NUM_TBLS }

  /** The parts of a scan the entropy coder looks at: which component each block of an MCU
      belongs to, which tables each component uses, and the order of coefficients. */
  datatype Scan = Scan(membership: seq<nat>, dcTbl: seq<nat>, acTbl: seq<nat>, restartInterval: nat, order: Order) {
    predicate Valid() {
      restartInterval < 0x1_0000 && Reorders(order) && |dcTbl| == |acTbl| &&
      (forall i :: 0 <= i < |membership| ==> membership[i] < |dcTbl|) &&
      (forall c :: 0 <= c < |dcTbl| ==> dcTbl[c] < NUM_TBLS && acTbl[c] < NUM_TBLS)
    }
  }

  type Mcu = seq<Block>

  /** The items of blocks blkn.. of an MCU. */
  function McuItems(sc: Scan, mcu: Mcu, lastDc: seq<int>, blkn: nat): seq<Item>
    requires sc.Valid() && |mcu| == |sc.membership| && |lastDc| == |sc.dcTbl| && blkn <= |mcu|
    decreases |mcu| - blkn
  {
    if blkn == |mcu| then []
    else
      var c := sc.membership[blkn];
      BlockItems(sc.order, sc.dcTbl[c], sc.acTbl[c], mcu[blkn], lastDc[c]) +
      McuItems(sc, mcu, lastDc[c := mcu[blkn][0]], blkn + 1)
  }

  /** The DC predictions after blocks blkn.. of an MCU. */
  function McuDc(sc: Scan, mcu: Mcu, lastDc: seq<int>, blkn: nat): (d: seq<int>)
    requires sc.Valid() && |mcu| == |sc.membership| && |lastDc| == |sc.dcTbl| && blkn <= |mcu|
    ensures |d| == |lastDc|
    decreases |mcu| - blkn
  {
    if blkn == |mcu| then lastDc
    else McuDc(sc, mcu, lastDc[sc.membership[blkn] := mcu[blkn][0]], blkn + 1)
  }

  /** Coefficients are 16-bit values (JCOEF), and an AC value of -32768 has no category that
      fits a run/size symbol. */
  predicate Codable(b: Block) {
    -32768 <= b[0] <= 32767 &&
    forall i :: 1 <= i < 64 ==> -32767 <= b[i] <= 32767
  }

  predicate CodableMcu(sc: Scan, mcu: Mcu) {
    |mcu| == |sc.membership| && forall i :: 0 <= i < |mcu| ==> Codable(mcu[i])
  }

  predicate CodableDc(lastDc: seq<int>) {
    forall i :: 0 <= i < |lastDc| ==> -32768 <= lastDc[i] <= 32767
  }

  // ---- items as bits

  datatype CTables = CTables(dc: seq<CTable>, ac: seq<CTable>) {
    predicate Valid() {
      |dc| == |ac| == NUM_TBLS &&
      (forall i :: 0 <= i < NUM_TBLS ==> WellSized(dc[i]) && WellSized(ac[i]))
    }

    function Table(kind: Kind, tbl: nat): CTable
      requires Valid() && tbl < NUM_TBLS
    {
      if kind == DC then dc[tbl] else ac[tbl]
    }
  }

  predicate WellSized(c: CTable) {
    |c.ehufco| == |c.ehufsi| == 256 && forall s :: 0 <= s < 256 ==> c.ehufsi[s] <= 16
  }

  predicate ItemOk(it: Item) {
    match it
    case Sym(_, tbl, sym) => tbl < NUM_TBLS && sym < 256
    case Raw(_, n) => 1 <= n <= 16
  }

  /** The item can be sent: a symbol needs a code. */
  predicate Sendable(t: CTables, it: Item)
    requires t.Valid() && ItemOk(it)
  {
    it.Sym? ==> t.Table(it.kind, it.tbl).ehufsi[it.sym] != 0
  }

  function ItemBits(t: CTables, it: Item): Bits
    requires t.Valid() && ItemOk(it)
  {
    match it
    case Sym(kind, tbl, sym) => ToBits(t.Table(kind, tbl).ehufco[sym], t.Table(kind, tbl).ehufsi[sym])
    case Raw(v, n) => ToBits(v, n)
  }

  predicate ItemsOk(items: seq<Item>) {
    forall i :: 0 <= i < |items| ==> ItemOk(items[i])
  }

  predicate AllSendable(t: CTables, items: seq<Item>)
    requires t.Valid() && ItemsOk(items)
  {
    forall i :: 0 <= i < |items| ==> Sendable(t, items[i])
  }

  function ItemsBits(t: CTables, items: seq<Item>): Bits
    requires t.Valid() && ItemsOk(items)
  {
    if items == [] then [] else ItemBits(t, items[0]) + ItemsBits(t, items[1..])
  }

  lemma {:induction false} ItemsBitsAppend(t: CTables, a: seq<Item>, b: seq<Item>)
    requires t.Valid() && ItemsOk(a) && ItemsOk(b)
    ensures ItemsOk(a + b) && ItemsBits(t, a + b) == ItemsBits(t, a) + ItemsBits(t, b)
  {
    hide ItemBits, ItemOk;
    if a == [] {
      assert a + b == b;
    } else {
      ItemsBitsAppend(t, a[1..], b);
      assert (a + b)[1..] == a[1..] + b;
    }
  }

  // ---- every item of a codable block is one emit_bits can take

  lemma {:induction false} BitLengthBound(v: nat, n: nat)
    requires v < Pow2(n)
    ensures BitLength(v) <= n
  {
    if v > 0 { BitLengthBound(v / 2, n - 1); }
  }

  lemma {:induction false} BitLengthIs(v: nat)
    ensures v < Pow2(BitLength(v)) && (v > 0 ==> BitLength(v) > 0 && Pow2(BitLength(v) - 1) <= v)
  {
    if v > 1 { BitLengthIs(v / 2); }
  }

  /** Category n is that of the values whose magnitudes have n bits (T.81, table F.1), and the bits that follow
      are those of the value, or of a negative one less one. */
  lemma CategoryIs(v: int)
    requires v != 0
    ensures var n := Category(v);
            n > 0 && Pow2(n - 1) <= (if v < 0 then -v else v) < Pow2(n) &&
            Extra(v) % Pow2(n) == if v > 0 then v else v - 1 + Pow2(n)
  {
    hide Pow2, BitLength;
    var n := Category(v);
    BitLengthIs(if v < 0 then -v else v);
    DivUnique(Extra(v), Pow2(n), if v > 0 then 0 else -1, if v > 0 then v else v - 1 + Pow2(n));
  }

  lemma CategoryBound(v: int)
    ensures -32768 < v < 32768 ==> Category(v) <= 15
    ensures -65536 < v < 65536 ==> Category(v) <= 16
    ensures v != 0 ==> Category(v) >= 1
  {
    assert Pow2(15) == 32768 && Pow2(16) == 65536;
    var m := if v < 0 then -v else v;
    if m < 32768 { BitLengthBound(m, 15); }
    if m < 65536 { BitLengthBound(m, 16); }
  }

  /** A run-length-16 code at a time. */
  lemma FirstZrl(tbl: nat, r: nat, rest: seq<Item>)
    requires r > 15
    ensures r % 16 == (r - 16) % 16
    ensures Zrls(tbl, r / 16) + rest == [Sym(AC, tbl, 0xF0)] + (Zrls(tbl, (r - 16) / 16) + rest)
  {
    assert r / 16 == (r - 16) / 16 + 1;
  }

  lemma NoZrls(tbl: nat, r: nat, rest: seq<Item>)
    requires r <= 15
    ensures r % 16 == r && Zrls(tbl, r / 16) + rest == rest
  {
  }

  /** The magnitude loops of the coders: how many bits an absolute value needs; a value that is not
      zero may be counted from one on. */
  method CountBits(v: nat, start: nat) returns (nbits: nat)
    requires start == 0 || (start == 1 && v > 0)
    ensures nbits == BitLength(v)
  {
    nbits := start;
    var temp: nat := if start == 0 then v else v / 2;
    while temp != 0
      invariant nbits + BitLength(temp) == BitLength(v)
    {
      nbits := nbits + 1;
      temp := temp / 2;
    }
  }

  lemma {:induction false} ZrlsOk(tbl: nat, n: nat)
    requires tbl < NUM_TBLS
    ensures ItemsOk(Zrls(tbl, n))
  {
    if n > 0 { ZrlsOk(tbl, n - 1); }
  }

  lemma CoefOk(tbl: nat, r: nat, v: int)
    requires tbl < NUM_TBLS && r < 16 && v != 0 && -32767 <= v <= 32767
    ensures ItemsOk(Coef(tbl, r, v))
  {
    CategoryBound(v);
  }

  /** Ranked coefficients whose AC part has categories up to 15. */
  predicate CodableAc(z: seq<int>) {
    |z| == 64 && forall k :: 1 <= k < 64 ==> -32767 <= z[k] <= 32767
  }

  lemma {:induction false} AcItemsOk(tbl: nat, z: seq<int>, k: nat, r: nat)
    requires tbl < NUM_TBLS && 1 <= k <= 64 && CodableAc(z)
    ensures ItemsOk(AcItems(tbl, z, k, r))
    decreases 64 - k
  {
    if k == 64 {
    } else if z[k] == 0 {
      AcItemsOk(tbl, z, k + 1, r + 1);
    } else {
      ZrlsOk(tbl, r / 16);
      CoefOk(tbl, r % 16, z[k]);
      AcItemsOk(tbl, z, k + 1, 0);
    }
  }

  lemma BlockItemsOk(o: Order, dctbl: nat, actbl: nat, b: Block, lastDc: int)
    requires Reorders(o) && dctbl < NUM_TBLS && actbl < NUM_TBLS && Codable(b) && -32768 <= lastDc <= 32767
    ensures CodableAc(Ranked(o, b))
    ensures ItemsOk(DcItems(dctbl, b[0] - lastDc)) && ItemsOk(AcItems(actbl, Ranked(o, b), 1, 0))
    ensures ItemsOk(BlockItems(o, dctbl, actbl, b, lastDc))
  {
    CategoryBound(b[0] - lastDc);
    AcItemsOk(actbl, Ranked(o, b), 1, 0);
  }

  lemma {:induction false} McuItemsOk(sc: Scan, mcu: Mcu, lastDc: seq<int>, blkn: nat)
    requires sc.Valid() && CodableMcu(sc, mcu) && |lastDc| == |sc.dcTbl| && CodableDc(lastDc) && blkn <= |mcu|
    ensures ItemsOk(McuItems(sc, mcu, lastDc, blkn))
    ensures CodableDc(McuDc(sc, mcu, lastDc, blkn))
    decreases |mcu| - blkn
  {
    if blkn < |mcu| {
      var c := sc.membership[blkn];
      BlockItemsOk(sc.order, sc.dcTbl[c], sc.acTbl[c], mcu[blkn], lastDc[c]);
      McuItemsOk(sc, mcu, lastDc[c := mcu[blkn][0]], blkn + 1);
    }
  }
}
