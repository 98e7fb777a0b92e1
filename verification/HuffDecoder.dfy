/**
 * The sequential Huffman decoder (jdhuff.c, jdhuff.h): lookahead and bit-serial symbol
 * decoding, block and MCU decoding, and restarts (read_restart_marker of jdmarker.c).
 */
module HuffDecoder {
  import opened Bits
  import opened BitReader
  import opened ByteStuffing
  import opened DerivedTables
  import opened HuffmanCodes
  import opened EntropySpec
  import opened SequentialCoding
  import opened Zigzag

  // ---- what one block's worth of stream means

  /** Figure F.12: a value from its extra bits. */
  function HuffExtend(x: int, s: nat): int
    requires s > 0
  {
    if x < Pow2(s - 1) then x + (1 - Pow2(s)) else x
  }

  /** A 16-bit coefficient (JCOEF). */
  function ToShort(v: int): int {
    var m := v % 0x1_0000;
    if m < 0x8000 then m else m - 0x1_0000
  }

  /** The value in the `s` extra bits at `p`. */
  function ReadExtra(st: Bits, p: nat, s: nat): int {
    if s == 0 then 0 else HuffExtend(Number(st, p, s), s)
  }

  datatype DcRead = DcRead(diff: int, pos: nat)
  datatype AcRead = AcRead(block: Block, pos: nat)
  datatype BlockRead = BlockRead(block: Block, dc: int, pos: nat)

  /** The DC difference at `p`, and the position after it. */
  ghost function ReadDc(h: HuffTable, st: Bits, p: nat): DcRead
    requires h.WellFormed()
  {
    var sym := ReadSymbol(h, st, p);
    DcRead(ReadExtra(st, p + sym.1, sym.0), p + sym.1 + sym.0)
  }

  /** AC coefficients from rank `k` on, stored into `b`, and the position after them. */
  ghost function ReadAc(h: HuffTable, o: Order, st: Bits, p: nat, k: nat, b: Block): AcRead
    requires h.WellFormed()
    decreases 64 - k
  {
    if k >= 64 then AcRead(b, p)
    else
      var sym := ReadSymbol(h, st, p);
      var p1 := p + sym.1;
      if sym.0 % 16 != 0 then
        ReadAc(h, o, st, p1 + sym.0 % 16, k + sym.0 / 16 + 1,
            Stored(o, b, k + sym.0 / 16, ReadExtra(st, p1, sym.0 % 16)))
      else if sym.0 / 16 != 15 then AcRead(b, p1)
      else ReadAc(h, o, st, p1, k + 16, b)
  }

  /** The coefficient of rank `k` set to `v`. */
  function Stored(o: Order, b: Block, k: nat, v: int): Block
    requires k < 80
  {
    b[o[k] := v]
  }

  /** A cleared block with its DC coefficient stored. */
  function DcBlock(v: int): Block {
    seq(64, k => if k == 0 then v else 0)
  }

  /** A block: its DC value added to the prediction, then its AC coefficients. The new
      prediction is not cut to 16 bits, the stored coefficient is. */
  ghost function ReadBlock(hdc: HuffTable, hac: HuffTable, o: Order, st: Bits, p: nat, lastDc: int): BlockRead
    requires hdc.WellFormed() && hac.WellFormed()
  {
    var dc := ReadDc(hdc, st, p);
    var ac := ReadAc(hac, o, st, dc.pos, 1, DcBlock(ToShort(dc.diff + lastDc)));
    BlockRead(ac.block, dc.diff + lastDc, ac.pos)
  }

  // ---- symbols

  /** No codeword of fewer than `l` bits is showing. */
  ghost predicate NoneBelow(bits: seq<nat>, st: Bits, p: nat, l: nat)
    requires |bits| == 17
  {
    forall m: nat :: 1 <= m < l && m <= 16 ==> Beyond(bits, st, p, m)
  }

  predicate Beyond(bits: seq<nat>, st: Bits, p: nat, m: nat)
    requires |bits| == 17 && m <= 16
  {
    Number(st, p, m) >= Kraft(bits, m)
  }

  lemma ShowingIsBelow(bits: seq<nat>, st: Bits, p: nat, l: nat, j: nat)
    requires |bits| == 17 && Kraft(bits, 16) <= Pow2(16) && Shows(bits, st, p, l, j)
    ensures Number(st, p, l) == First(bits, l) + j < Kraft(bits, l)
  {
    CodeFits(bits, l, j);
    NumberBits(st, p, l);
    NumberBound(st, p, l);
    ToBitsInjective(Number(st, p, l), First(bits, l) + j, l);
  }

  /** One turn of the bit-serial loop: the codeword goes on beyond `l` bits ... */
  lemma SerialGoesOn(h: HuffTable, d: DTable, st: Bits, p: nat, l: nat, code: nat)
    requires h.Valid() && DDerived(h, d) && 1 <= l <= 16 && NoneBelow(h.bits, st, p, l)
    requires code == Number(st, p, l) && code > d.maxcode[l]
    ensures NoneBelow(h.bits, st, p, l + 1)
  {
    AtLeastFirst(h.bits, st, p, l);
    assert SerialEntry(h, d.mincode[l], d.maxcode[l], d.valptr[l], l);
    assert Beyond(h.bits, st, p, l);
  }

  /** ... or it is complete, and the tables find its symbol. */
  lemma SerialEnds(h: HuffTable, d: DTable, st: Bits, p: nat, l: nat, code: nat)
    requires h.Valid() && DDerived(h, d) && 1 <= l <= 16 && NoneBelow(h.bits, st, p, l)
    requires code == Number(st, p, l) && code <= d.maxcode[l]
    ensures 0 <= d.valptr[l] + (code - d.mincode[l]) < 256
    ensures ReadSymbol(h, st, p) == (h.huffval[d.valptr[l] + (code - d.mincode[l])], l)
  {
    hide ReadSymbol, ToBits, Pow2;
    AtLeastFirst(h.bits, st, p, l);
    assert SerialEntry(h, d.mincode[l], d.maxcode[l], d.valptr[l], l);
    NumberBits(st, p, l);
    var j := code - First(h.bits, l);
    assert Shows(h.bits, st, p, l, j);
    ReadSymbolIs(h, st, p, l, j);
    assert Index(h, l, j) == d.valptr[l] + (code - d.mincode[l]);
  }

  lemma AtLeastFirst(bits: seq<nat>, st: Bits, p: nat, l: nat)
    requires |bits| == 17 && 1 <= l <= 16 && NoneBelow(bits, st, p, l)
    ensures Number(st, p, l) >= First(bits, l)
  {
    if l > 1 { assert Beyond(bits, st, p, l - 1); }
  }

  lemma NothingShows(h: HuffTable, st: Bits, p: nat)
    requires h.Valid() && NoneBelow(h.bits, st, p, 17)
    ensures ReadSymbol(h, st, p) == (0, 17)
  {
    forall l: nat, j: nat | Shows(h.bits, st, p, l, j)
      ensures false
    {
      assert Beyond(h.bits, st, p, l);
      ShowingIsBelow(h.bits, st, p, l, j);
    }
  }

  /** The reader has consumed one codeword and delivered its symbol. */
  ghost predicate Decoded(r: Reader, r': Reader, h: HuffTable, st: Bits, p: nat, sym: Byte)
    requires h.WellFormed()
  {
    Refilled(r, r') && At(r', st, p + ReadSymbol(h, st, p).1) && sym == ReadSymbol(h, st, p).0
  }

  method OneMoreBit(r: Reader, ghost l: nat, code: nat, ghost st: Bits, ghost p: nat, ghost q: nat)
    returns (ok: bool, code': nat, r': Reader)
    requires At(r, st, q) && q == p + l && code == Number(st, p, l)
    ensures if ok then Refilled(r, r') && At(r', st, q + 1) && code' == Number(st, p, l + 1) else !r.Supplied()
  {
    hide Begins, Reader.Pending, Reader.Upcoming, Reader.Terminated, Reader.Supplied, Bit;
    var bit;
    ok, bit, r' := GetBits(r, 1, st, q);
    code' := code * 2 + bit;
    assert ok ==> bit == (if Bit(st, q) then 1 else 0);
  }

  /** jpeg_huff_decode: collect the code one bit at a time, from `minBits` on. */
  method SerialDecode(r: Reader, h: HuffTable, d: DTable, minBits: nat, ghost st: Bits, ghost p: nat)
    returns (ok: bool, sym: Byte, r': Reader)
    requires h.Valid() && DDerived(h, d) && 1 <= minBits <= 9 && At(r, st, p) && NoneBelow(h.bits, st, p, minBits)
    ensures if ok then Decoded(r, r', h, st, p, sym) else !r.Supplied()
  {
    hide Number, ReadSymbol, NoneBelow, Bit, Begins, Reader.Pending, LookEntry, Reader.NextMarker, Reader.Beyond;
    sym := 0;
    var l, code := minBits, 0;
    ok, code, r' := GetBits(r, l, st, p);
    if !ok { return; }
    ghost var q := p + l;
    while code > d.maxcode[l]
      invariant 1 <= l <= 17 && code == Number(st, p, l) && NoneBelow(h.bits, st, p, l)
      invariant Refilled(r, r') && q == p + l && At(r', st, q)
      decreases 17 - l
    {
      SentinelStops(d.maxcode, code, st, p, l);
      SerialGoesOn(h, d, st, p, l, code);
      ghost var r1 := r';
      ok, code, r' := OneMoreBit(r', l, code, st, p, q);
      if !ok { return; }
      RefilledTrans(r, r1, r');
      l := l + 1;
      q := q + 1;
    }
    if l > 16 {
      NothingShows(h, st, p);
    } else {
      SerialEnds(h, d, st, p, l, code);
      sym := d.pub.huffval[d.valptr[l] + (code - d.mincode[l])];
    }
  }

  /** The entry 0xFFFFF at length 17 ends the search. */
  lemma SentinelStops(maxcode: seq<int>, code: nat, st: Bits, p: nat, l: nat)
    requires |maxcode| == 18 && maxcode[17] == 0xFFFFF && l <= 17 && code == Number(st, p, l) > maxcode[l]
    ensures l < 17
  {
    NumberBound(st, p, l);
    Powers();
    Pow2Add(16, 1);
    assert Pow2(1) == 2;
  }

  /** What the lookahead entry of the next eight bits promises. */
  lemma LookaheadTells(h: HuffTable, d: DTable, st: Bits, p: nat, look: nat)
    requires h.Valid() && DDerived(h, d) && look == Number(st, p, LOOKAHEAD)
    ensures look < 256 == |d.lookNbits| == |d.lookSym|
    ensures d.lookNbits[look] == 0 ==> NoneBelow(h.bits, st, p, LOOKAHEAD + 1)
    ensures d.lookNbits[look] != 0 ==>
              d.lookNbits[look] <= LOOKAHEAD && ReadSymbol(h, st, p) == (d.lookSym[look], d.lookNbits[look])
  {
    hide Number, ReadSymbol;
    NumberBound(st, p, LOOKAHEAD);
    Powers();
    assert LookEntry(h, look, d.lookNbits[look], d.lookSym[look]);
    var nb := d.lookNbits[look];
    if nb == 0 {
      forall m: nat | 1 <= m < LOOKAHEAD + 1
        ensures Beyond(h.bits, st, p, m)
      {
        assert PastCodes(h, look, m);
        NumberPrefix(st, p, m, LOOKAHEAD);
      }
    } else {
      NumberPrefix(st, p, nb, LOOKAHEAD);
      NumberBits(st, p, nb);
      var j := Top(look, nb) - First(h.bits, nb);
      assert Shows(h.bits, st, p, nb, j);
      ReadSymbolIs(h, st, p, nb, j);
    }
  }

  /** The lookahead path: decodes a codeword of at most eight bits, or finds there is none. */
  method LookupDecode(r: Reader, h: HuffTable, d: DTable, ghost st: Bits, ghost p: nat)
      returns (hit: bool, sym: Byte, r': Reader)
    requires h.Valid() && DDerived(h, d) && At(r, st, p) && r.bitsLeft >= LOOKAHEAD
    ensures if hit then Decoded(r, r', h, st, p, sym) else r' == r && NoneBelow(h.bits, st, p, LOOKAHEAD + 1)
  {
    hide DDerived, ReadSymbol, NoneBelow, Refilled, At;
    Consume(r, LOOKAHEAD, st, p);
    var look := PeekBits(r, LOOKAHEAD);
    LookaheadTells(h, d, st, p, look);
    var nb := d.lookNbits[look];
    hit, sym, r' := nb != 0, d.lookSym[look], r;
    if hit {
      assert ReadSymbol(h, st, p) == (sym, nb);
      ghost var q := p + nb;
      r' := DropBits(r, nb, st, p);
      assert At(r', st, q);
    }
  }

  /** HUFF_DECODE: the lookahead path and the bit-serial path deliver the same symbol and
      consume the same bits, namely those of the codeword the stream shows. */
  method HuffDecode(r: Reader, h: HuffTable, d: DTable, ghost st: Bits, ghost p: nat)
    returns (ok: bool, sym: Byte, r': Reader)
    requires h.Valid() && DDerived(h, d) && At(r, st, p)
    ensures if ok then Decoded(r, r', h, st, p, sym) else !r.Supplied()
  {
    sym, r' := 0, r;
    ok := true;
    if r'.bitsLeft < LOOKAHEAD {
      ok, r' := FillBitBuffer(r', 0);
      if !ok { return; }
      StillAt(r, r', st, p);
      if r'.bitsLeft < LOOKAHEAD {
        ok, sym, r' := SerialDecode(r', h, d, 1, st, p);
        return;
      }
    }
    var hit;
    hit, sym, r' := LookupDecode(r', h, d, st, p);
    if !hit { ok, sym, r' := SerialDecode(r', h, d, LOOKAHEAD + 1, st, p); }
  }

  // ---- blocks

  /** A DC table names categories only up to 15, the size of the extend tables. */
  predicate DcTable(h: HuffTable) {
    h.Valid() && forall i :: 0 <= i < Count(h.bits, 16) ==> h.huffval[i] <= 15
  }

  lemma DcSymbolSmall(h: HuffTable, st: Bits, p: nat)
    requires DcTable(h)
    ensures ReadSymbol(h, st, p).0 <= 15
  {
  }

  /** The extra bits of a symbol, extended; they end at `q`. */
  method GetExtra(r: Reader, s: nat, ghost st: Bits, ghost p: nat, ghost q: nat) returns (ok: bool, v: int, r': Reader)
    requires At(r, st, p) && s <= 15 && q == p + s
    ensures if ok then Refilled(r, r') && At(r', st, q) && v == ReadExtra(st, p, s) else !r.Supplied()
  {
    ok, v, r' := true, 0, r;
    if s != 0 {
      var x;
      ok, x, r' := GetBits(r, s, st, p);
      if ok { v := HuffExtend(x, s); }
    }
  }

  method DecodeDc(r: Reader, h: HuffTable, d: DTable, ghost st: Bits, ghost p: nat)
      returns (ok: bool, diff: int, r': Reader)
    requires DcTable(h) && DDerived(h, d) && At(r, st, p)
    ensures if ok then Refilled(r, r') && At(r', st, ReadDc(h, st, p).pos) && diff == ReadDc(h, st, p).diff
            else !r.Supplied()
  {
    hide ReadSymbol, DDerived, Begins, Reader.Pending, Reader.Upcoming, ReadExtra;
    diff := 0;
    DcSymbolSmall(h, st, p);
    var s;
    ok, s, r' := HuffDecode(r, h, d, st, p);
    if ok { ok, diff, r' := GetExtra(r', s, st, p + ReadSymbol(h, st, p).1, ReadDc(h, st, p).pos); }
  }

  /** The three ways one symbol takes the AC loop further. */
  lemma AcCoef(h: HuffTable, o: Order, st: Bits, p: nat, k: nat, b: Block, sym: Byte, q: nat, v: int, k2: nat,
      q2: nat, b2: Block)
    requires h.WellFormed() && k < 64 && ReadSymbol(h, st, p) == (sym, q - p) && sym % 16 != 0 && q >= p
    requires v == ReadExtra(st, q, sym % 16) && k2 == k + sym / 16 + 1 && q2 == q + sym % 16 &&
             b2 == Stored(o, b, k + sym / 16, v)
    ensures ReadAc(h, o, st, p, k, b) == ReadAc(h, o, st, q2, k2, b2)
  {
    hide ReadSymbol, ReadExtra, Stored;
  }

  lemma AcStop(h: HuffTable, o: Order, st: Bits, p: nat, k: nat, b: Block, sym: Byte, q: nat)
    requires h.WellFormed() && k < 64 && ReadSymbol(h, st, p) == (sym, q - p) && sym % 16 == 0 && q >= p
    ensures sym / 16 != 15 ==> ReadAc(h, o, st, p, k, b) == ReadAc(h, o, st, q, 64, b)
    ensures sym / 16 == 15 ==> ReadAc(h, o, st, p, k, b) == ReadAc(h, o, st, q, k + 16, b)
  {
  }

  /** The AC loop has come to rank `k` and position `q`; `full` is the block read so far and
      `b` what is kept of it. */
  ghost predicate AcInv(h: HuffTable, o: Order, st: Bits, k: nat, q: nat, full: Block, goal: AcRead, keep: bool,
      b: Block, b0: Block)
    requires h.WellFormed()
  {
    ReadAc(h, o, st, q, k, full) == goal && b == if keep then full else b0
  }

  /** One turn of the AC loop: a coefficient, a run of sixteen zeros, or the end of the block
      (rank 64 stands for leaving the loop). */
  method AcTurn(r: Reader, h: HuffTable, d: DTable, o: Order, keep: bool, ghost b0: Block, k: nat, b: Block,
      ghost st: Bits, ghost p: nat, ghost full: Block)
    returns (ok: bool, k': nat, b': Block, r': Reader, ghost q: nat, ghost full': Block)
    requires h.Valid() && DDerived(h, d) && k < 64 && At(r, st, p)
    requires b == if keep then full else b0
    ensures if ok then Refilled(r, r') && At(r', st, q) else !r.Supplied()
    ensures ok ==> k' > k && AcInv(h, o, st, k', q, full', ReadAc(h, o, st, p, k, full), keep, b', b0)
  {
    hide ReadAc, ReadSymbol, ReadExtra, Stored, DDerived, DataBits, HasMarker;
    k', b', q, full' := k, b, p, full;
    var rs;
    ok, rs, r' := HuffDecode(r, h, d, st, p);
    if !ok { return; }
    q := p + ReadSymbol(h, st, p).1;
    if rs % 16 != 0 {
      var v;
      ghost var q1 := q;
      q := q1 + rs % 16;
      ok, v, r' := GetExtra(r', rs % 16, st, q1, q);
      if keep { b' := Stored(o, b, k + rs / 16, v); }
      k', full' := k + rs / 16 + 1, Stored(o, full, k + rs / 16, v);
      if ok { AcCoef(h, o, st, p, k, full, rs, q1, v, k', q, full'); }
    } else {
      AcStop(h, o, st, p, k, full, rs, q);
      k' := if rs / 16 != 15 then 64 else k + 16;
    }
  }

  /** The AC loop of decode_mcu. With `keep` off the values are discarded, but the same bits
      are consumed. */
  method DecodeAc(r: Reader, h: HuffTable, d: DTable, o: Order, keep: bool, b: Block, ghost st: Bits, ghost p: nat)
    returns (ok: bool, b': Block, r': Reader)
    requires h.Valid() && DDerived(h, d) && At(r, st, p)
    ensures if ok then Refilled(r, r') && At(r', st, ReadAc(h, o, st, p, 1, b).pos) else !r.Supplied()
    ensures ok ==> b' == if keep then ReadAc(h, o, st, p, 1, b).block else b
  {
    ok, b', r' := true, b, r;
    var k: nat := 1;
    ghost var q, full, goal := p, b, ReadAc(h, o, st, p, 1, b);
    while k < 64
      invariant Refilled(r, r') && At(r', st, q) && AcInv(h, o, st, k, q, full, goal, keep, b', b)
      decreases 64 - k
    {
      ok, k, b', r', q, full := AcTurn(r', h, d, o, keep, b, k, b', st, q, full);
      if !ok { return; }
    }
  }

  /** What is wanted of a component: anything at all, and its AC coefficients. */
  datatype Wanted = Wanted(needed: bool, ac: bool)

  /** What a block delivers for a component of which `w` is wanted. */
  function GotBlock(w: Wanted, full: BlockRead): Block {
    if !w.needed then DcBlock(0) else if w.ac then full.block else DcBlock(ToShort(full.dc))
  }

  function GotDc(w: Wanted, full: BlockRead, lastDc: int): int {
    if w.needed then full.dc else lastDc
  }

  method DecodeBlock(r: Reader, hdc: HuffTable, ddc: DTable, hac: HuffTable, dac: DTable, o: Order, w: Wanted,
      lastDc: int, ghost st: Bits, ghost p: nat) returns (ok: bool, b: Block, dc: int, r': Reader)
    requires DcTable(hdc) && DDerived(hdc, ddc) && hac.Valid() && DDerived(hac, dac) && At(r, st, p)
    ensures ok ==> Refilled(r, r') && At(r', st, ReadBlock(hdc, hac, o, st, p, lastDc).pos)
    ensures ok ==>
              b == GotBlock(w, ReadBlock(hdc, hac, o, st, p, lastDc)) &&
              dc == GotDc(w, ReadBlock(hdc, hac, o, st, p, lastDc), lastDc)
    ensures !ok ==> !r.Supplied()
  {
    hide ReadAc, ReadDc, ReadBlock, DDerived, DcBlock, Begins, Reader.Pending;
    var diff;
    ok, diff, r' := DecodeDc(r, hdc, ddc, st, p);
    b, dc := DcBlock(0), lastDc;
    if !ok { return; }
    if w.needed { b, dc := StoreDc(b, diff + lastDc); }
    ghost var q := ReadDc(hdc, st, p).pos;
    AcPosition(hac, o, st, q, 1, b, DcBlock(ToShort(diff + lastDc)));
    BlockParts(hdc, hac, o, st, p, lastDc);
    ok, b, r' := DecodeAc(r', hac, dac, o, w.needed && w.ac, b, st, q);
  }

  method StoreDc(b: Block, s: int) returns (b': Block, dc: int)
    requires b == DcBlock(0)
    ensures dc == s && b' == DcBlock(ToShort(s))
  {
    dc := s;
    b' := b[0 := ToShort(s)];
  }

  lemma BlockParts(hdc: HuffTable, hac: HuffTable, o: Order, st: Bits, p: nat, lastDc: int)
    requires hdc.WellFormed() && hac.WellFormed()
    ensures var full, d := ReadBlock(hdc, hac, o, st, p, lastDc), ReadDc(hdc, st, p);
            var ac := ReadAc(hac, o, st, d.pos, 1, DcBlock(ToShort(d.diff + lastDc)));
            full.dc == d.diff + lastDc && full.block == ac.block && full.pos == ac.pos
  {
  }

  /** Where the AC coefficients end does not depend on what is already in the block. */
  lemma {:induction false} AcPosition(h: HuffTable, o: Order, st: Bits, p: nat, k: nat, b: Block, c: Block)
    requires h.WellFormed()
    ensures ReadAc(h, o, st, p, k, b).pos == ReadAc(h, o, st, p, k, c).pos
    decreases 64 - k
  {
    if k < 64 {
      var sym := ReadSymbol(h, st, p);
      var p1 := p + sym.1;
      if sym.0 % 16 != 0 {
        var v := ReadExtra(st, p1, sym.0 % 16);
        AcPosition(h, o, st, p1 + sym.0 % 16, k + sym.0 / 16 + 1, Stored(o, b, k + sym.0 / 16, v),
            Stored(o, c, k + sym.0 / 16, v));
      } else if sym.0 / 16 == 15 {
        AcPosition(h, o, st, p1, k + 16, b, c);
      }
    }
  }

  // ---- MCUs

  datatype HuffTables = HuffTables(dc: seq<HuffTable>, ac: seq<HuffTable>) {
    ghost predicate Valid() {
      |dc| == |ac| == NUM_TBLS && forall i: nat {:trigger TblNo(i)} :: TblNo(i) ==> DcTable(dc[i]) && ac[i].Valid()
    }

    function Dc(i: nat): (h: HuffTable)
      requires Valid() && TblNo(i)
      ensures DcTable(h)
    {
      dc[i]
    }

    function Ac(i: nat): (h: HuffTable)
      requires Valid() && TblNo(i)
      ensures h.Valid()
    {
      ac[i]
    }
  }

  /** The derived tables that go with the Huffman tables. */
  ghost predicate Derives(hs: HuffTables, ddc: seq<DTable>, dac: seq<DTable>)
    requires hs.Valid()
  {
    |ddc| == |dac| == NUM_TBLS &&
    forall i: nat {:trigger TblNo(i)} :: TblNo(i) ==> DDerived(hs.dc[i], ddc[i]) && DDerived(hs.ac[i], dac[i])
  }

  datatype McuRead = McuRead(blocks: seq<Block>, lastDc: seq<int>, pos: nat)

  ghost function ReadBlockAt(sc: Scan, hs: HuffTables, st: Bits, p: nat, lastDc: seq<int>, blkn: nat): BlockRead
    requires sc.Valid() && hs.Valid() && |lastDc| == |sc.dcTbl| && blkn < |sc.membership|
  {
    var c := sc.membership[blkn];
    ReadBlock(hs.Dc(sc.dcTbl[c]), hs.Ac(sc.acTbl[c]), sc.order, st, p, lastDc[c])
  }

  /** Blocks blkn.. of an MCU read from position `p`. */
  ghost function ReadMcu(sc: Scan, hs: HuffTables, want: seq<Wanted>, st: Bits, p: nat, lastDc: seq<int>,
      blkn: nat): (m: McuRead)
    requires sc.Valid() && hs.Valid() && |want| == |lastDc| == |sc.dcTbl| && blkn <= |sc.membership|
    ensures |m.lastDc| == |lastDc| && |m.blocks| == |sc.membership| - blkn
    decreases |sc.membership| - blkn
  {
    if blkn == |sc.membership| then McuRead([], lastDc, p)
    else
      var c := sc.membership[blkn];
      var full := ReadBlockAt(sc, hs, st, p, lastDc, blkn);
      var rest := ReadMcu(sc, hs, want, st, full.pos, lastDc[c := GotDc(want[c], full, lastDc[c])], blkn + 1);
      McuRead([GotBlock(want[c], full)] + rest.blocks, rest.lastDc, rest.pos)
  }

  method DecodeBlocks(r: Reader, sc: Scan, hs: HuffTables, ddc: seq<DTable>, dac: seq<DTable>, want: seq<Wanted>,
      lastDc: seq<int>, ghost st: Bits, ghost p: nat) returns (ok: bool, blocks: seq<Block>, dc: seq<int>, r': Reader)
    requires sc.Valid() && hs.Valid() && Derives(hs, ddc, dac) && |want| == |lastDc| == |sc.dcTbl| && At(r, st, p)
    ensures ok ==> Refilled(r, r') && At(r', st, ReadMcu(sc, hs, want, st, p, lastDc, 0).pos)
    ensures ok ==>
              blocks == ReadMcu(sc, hs, want, st, p, lastDc, 0).blocks &&
              dc == ReadMcu(sc, hs, want, st, p, lastDc, 0).lastDc
    ensures !ok ==> !r.Supplied()
  {
    hide ReadMcu, ReadBlock, DataBits, DDerived, HasMarker;
    ok, blocks, dc, r' := true, [], lastDc, r;
    ghost var q, goal := p, ReadMcu(sc, hs, want, st, p, lastDc, 0);
    for blkn := 0 to |sc.membership|
      invariant Refilled(r, r') && At(r', st, q) && |dc| == |lastDc|
      invariant ReadsTo(sc, hs, want, st, q, dc, blkn, blocks, goal)
    {
      var c := sc.membership[blkn];
      assert TblNo(sc.dcTbl[c]) && TblNo(sc.acTbl[c]);
      ghost var full := ReadBlockAt(sc, hs, st, q, dc, blkn);
      var b, s;
      ok, b, s, r' := DecodeBlock(r', hs.Dc(sc.dcTbl[c]), ddc[sc.dcTbl[c]], hs.Ac(sc.acTbl[c]), dac[sc.acTbl[c]],
                                  sc.order, want[c], dc[c], st, q);
      if !ok { return; }
      ReadsOneMore(sc, hs, want, st, q, dc, blkn, blocks, goal);
      blocks, dc := blocks + [b], dc[c := s];
      q := full.pos;
    }
    ReadsDone(sc, hs, want, st, q, dc, blocks, goal);
    assert blocks + [] == blocks;
  }

  /** With `blocks` read so far, the rest of the MCU completes them to `goal`. */
  ghost predicate ReadsTo(sc: Scan, hs: HuffTables, want: seq<Wanted>, st: Bits, q: nat, dc: seq<int>, blkn: nat,
      blocks: seq<Block>, goal: McuRead)
    requires sc.Valid() && hs.Valid() && |want| == |dc| == |sc.dcTbl| && blkn <= |sc.membership|
  {
    var rest := ReadMcu(sc, hs, want, st, q, dc, blkn);
    goal == McuRead(blocks + rest.blocks, rest.lastDc, rest.pos)
  }

  lemma ReadsDone(sc: Scan, hs: HuffTables, want: seq<Wanted>, st: Bits, q: nat, dc: seq<int>, blocks: seq<Block>,
      goal: McuRead)
    requires sc.Valid() && hs.Valid() && |want| == |dc| == |sc.dcTbl| &&
             ReadsTo(sc, hs, want, st, q, dc, |sc.membership|, blocks, goal)
    ensures goal == McuRead(blocks, dc, q)
  {
  }

  lemma ReadsOneMore(sc: Scan, hs: HuffTables, want: seq<Wanted>, st: Bits, q: nat, dc: seq<int>, blkn: nat,
      blocks: seq<Block>, goal: McuRead)
    requires sc.Valid() && hs.Valid() && |want| == |dc| == |sc.dcTbl| && blkn < |sc.membership|
    requires ReadsTo(sc, hs, want, st, q, dc, blkn, blocks, goal)
    ensures var c, full := sc.membership[blkn], ReadBlockAt(sc, hs, st, q, dc, blkn);
            ReadsTo(sc, hs, want, st, full.pos, dc[c := GotDc(want[c], full, dc[c])], blkn + 1,
                blocks + [GotBlock(want[c], full)], goal)
  {
    var c, full := sc.membership[blkn], ReadBlockAt(sc, hs, st, q, dc, blkn);
    var rest := ReadMcu(sc, hs, want, st, full.pos, dc[c := GotDc(want[c], full, dc[c])], blkn + 1);
    assert blocks + ([GotBlock(want[c], full)] + rest.blocks) == blocks + [GotBlock(want[c], full)] + rest.blocks;
  }

  // ---- restarts and decode_mcu

  /** One round of next_marker: skip a byte, or a run of 0xFF and what follows it. */
  method MarkerTurn(r: Reader) returns (ok: bool, r': Reader)
    requires r.Ok() && r.unreadMarker == 0
    ensures Refilled(r, r') && r' == r.(pos := r'.pos, unreadMarker := r'.unreadMarker)
    ensures if ok then r'.pos > r.pos else !r.Supplied() && r'.unreadMarker == 0
  {
    hide EndsAs, Reader.Supplied, Reader.Behind, Reader.Upcoming, SkipFill, ToBits;
    ok, r' := true, r;
    var pos := r.pos;
    ghost var given := r.Cut();
    SuppliedCut(r);
    AsItIs(r);
    if pos == r.arrived {
      NothingFetched(given);
      return false, r;
    }
    if r.src[pos] != 0xFF {
      PlainFetched(r);
      PlainFetched(given);
      r' := r.(pos := pos + 1);
    } else {
      var c, pos';
      ok, c, pos' := PastFill(r.src, r.arrived, pos);
      if !ok {
        FillFetched(given);
        return;
      }
      FillCut(r, pos');
      r' := r.(pos := pos', unreadMarker := c);
      if c == 0 {
        StuffedFetched(r, pos');
        StuffedFetched(given, pos');
      } else {
        MarkerFetched(r, pos');
        MarkerFetched(given, pos');
      }
    }
    EndsAlike(r, r');
  }

  lemma AsItIs(r: Reader)
    requires r.Ok()
    ensures Refilled(r, r)
  {
  }

  /** next_marker: skip to the next marker, whatever lies before it; what has been skipped stays
      skipped if the data run out. */
  method NextMarker(r: Reader) returns (ok: bool, r': Reader)
    requires r.Ok() && r.unreadMarker == 0
    ensures Refilled(r, r') && r' == r.(pos := r'.pos, unreadMarker := r'.unreadMarker)
    ensures ok <==> r'.unreadMarker != 0
    ensures ok <==> r.Supplied()
  {
    ok, r' := true, r;
    while r'.unreadMarker == 0
      invariant ok && Refilled(r, r') && r' == r.(pos := r'.pos, unreadMarker := r'.unreadMarker)
      decreases r.arrived - r'.pos
    {
      ghost var r1 := r';
      ok, r' := MarkerTurn(r');
      RefilledTrans(r, r1, r');
      if !ok { return; }
    }
  }

  datatype Result = Complete | NeedData | LostSync

  /** read_restart_marker. A marker other than the expected one goes to the resynchronizer,
      which is not part of this model. */
  method ReadRestartMarker(r: Reader, expected: nat) returns (res: Result, r': Reader)
    requires r.Ok() && expected < 8
    ensures res == Complete ==>
              r.Terminated() && r.Supplied() && r'.Ok() && r'.src == r.src && r'.arrived == r.arrived &&
              r'.unreadMarker == 0 && r.NextMarker() == RST0 + expected && r'.src[r'.pos..] == r.Beyond() &&
              r'.src[r'.pos..r'.arrived] == r.Behind() && r'.getBuffer == r.getBuffer && r'.bitsLeft == r.bitsLeft
    ensures res != Complete ==> Refilled(r, r') && r' == r.(pos := r'.pos, unreadMarker := r'.unreadMarker)
    ensures res == LostSync ==> r.Terminated() && r.NextMarker() == r'.unreadMarker != RST0 + expected
    ensures res == NeedData <==> !r.Supplied()
  {
    r' := r;
    if r'.unreadMarker == 0 {
      var ok;
      ok, r' := NextMarker(r');
      if !ok { return NeedData, r'; }
    }
    if r'.unreadMarker == RST0 + expected {
      r' := r'.(unreadMarker := 0);
      res := Complete;
    } else {
      res := LostSync;
    }
  }

  /** Decoder state between MCUs. */
  datatype DecoderState = DecoderState(r: Reader, lastDc: seq<int>, toGo: nat, nextRestart: nat) {
    predicate Due(sc: Scan) {
      sc.restartInterval != 0 && toGo == 0
    }

    /** The next MCU can be read: its data end in a marker, and a restart that is due finds the
        marker it expects. */
    predicate Ready(sc: Scan) {
      r.Ok() && r.Terminated() && nextRestart < 8 &&
      (Due(sc) ==> r.NextMarker() == RST0 + nextRestart && HasMarker(r.Beyond()))
    }

    /** The data of the next MCU have arrived, with the marker behind them. */
    predicate Arrived(sc: Scan) {
      Ready(sc) && r.Supplied() && (Due(sc) ==> HasMarker(r.Behind()))
    }

    /** The data of the next MCU, whether they end in a marker or not, begin stream `st`. */
    ghost predicate Offers(sc: Scan, st: Bits) {
      if Due(sc) then
        r.Ok() && r.Terminated() && r.NextMarker() == RST0 + nextRestart &&
        Begins(DataBits(r.Beyond()), HasMarker(r.Beyond()), st, 0)
      else At(r, st, 0)
    }

    /** The data the next MCU is read from, if they are all there, ... */
    function Stream(sc: Scan): Bits
      requires Ready(sc)
    {
      if Due(sc) then DataBits(r.Beyond()) else r.Pending()
    }

    /** ... the marker that ends them, and what lies beyond. */
    function Marker(sc: Scan): nat
      requires Ready(sc)
    {
      if Due(sc) then MarkerCode(r.Beyond()) else r.NextMarker()
    }

    function Beyond(sc: Scan): seq<Byte>
      requires Ready(sc)
    {
      if Due(sc) then AfterMarker(r.Beyond()) else r.Beyond()
    }

    /** The predictions and counters the next MCU is read with. */
    function Dc(sc: Scan): seq<int> {
      if Due(sc) then Zeros(|sc.dcTbl|) else lastDc
    }

    function ToGo(sc: Scan): nat {
      if Due(sc) then sc.restartInterval else toGo
    }

    function NextNumber(sc: Scan): nat {
      if Due(sc) then (nextRestart + 1) % 8 else nextRestart
    }
  }

  /** `s'` is the state after reading one MCU from state `s`, and `blocks` are its blocks, as stream
      `st` spells them. */
  ghost predicate ReadOne(sc: Scan, hs: HuffTables, want: seq<Wanted>, s: DecoderState, s': DecoderState,
      blocks: seq<Block>, st: Bits)
    requires sc.Valid() && hs.Valid() && |want| == |s.lastDc| == |sc.dcTbl|
  {
    var m := ReadMcu(sc, hs, want, st, 0, s.Dc(sc), 0);
    blocks == m.blocks && s'.lastDc == m.lastDc && At(s'.r, st, m.pos) &&
    s'.toGo == (s.ToGo(sc) - 1) % 0x1_0000_0000 && s'.nextRestart == s.NextNumber(sc)
  }

  /** The marker that ends the data, and what lies beyond, are still to come. */
  predicate SameEnd(sc: Scan, s: DecoderState, s': DecoderState)
    requires s.Ready(sc)
  {
    s'.r.Ok() && s'.r.Terminated() && s'.r.NextMarker() == s.Marker(sc) && s'.r.Beyond() == s.Beyond(sc)
  }

  /** Reading goes on from `s'` as from `s`: the same data, predictions and counters, whether a restart
      that is due has been carried out already or not. */
  predicate Resumes(sc: Scan, s: DecoderState, s': DecoderState)
    requires s.Ready(sc)
  {
    s'.Ready(sc) && s'.Stream(sc) == s.Stream(sc) && s'.Marker(sc) == s.Marker(sc) && s'.Beyond(sc) == s.Beyond(sc) &&
    s'.Dc(sc) == s.Dc(sc) && s'.ToGo(sc) == s.ToGo(sc) && s'.NextNumber(sc) == s.NextNumber(sc)
  }

  /** process_restart. */
  method ProcessRestart(sc: Scan, s: DecoderState) returns (res: Result, s': DecoderState)
    requires s.r.Ok() && s.Due(sc) && s.nextRestart < 8
    ensures s'.r.Ok() && s'.r.src == s.r.src && s'.r.arrived == s.r.arrived
    ensures res == Complete ==>
              s.r.Terminated() && s.r.Supplied() && s.r.NextMarker() == RST0 + s.nextRestart &&
              s'.r.unreadMarker == 0 &&
              s'.r.src[s'.r.pos..] == s.r.Beyond() && s'.r.src[s'.r.pos..s'.r.arrived] == s.r.Behind() &&
              s'.r.Pending() == DataBits(s.r.Beyond()) && s'.lastDc == Zeros(|sc.dcTbl|) &&
              s'.toGo == sc.restartInterval && s'.nextRestart == (s.nextRestart + 1) % 8
    ensures res == LostSync ==> s.r.Terminated() && s.r.NextMarker() == s'.r.unreadMarker != RST0 + s.nextRestart
    ensures res == NeedData <==> !s.r.Supplied()
    ensures res != Complete ==> Skipped(s, s')
  {
    s' := s.(r := s.r.(bitsLeft := 0));
    var r;
    res, r := ReadRestartMarker(s'.r, s'.nextRestart);
    if res == Complete {
      s' := DecoderState(r.(printedEod := false), Zeros(|sc.dcTbl|), sc.restartInterval, (s.nextRestart + 1) % 8);
      assert ToBits(r.getBuffer, 0) + r.Upcoming() == r.Upcoming();
    } else {
      s' := s'.(r := r);
    }
  }

  /** No change but that the padding bits are thrown away and bytes before the marker are skipped. */
  predicate Skipped(s: DecoderState, s': DecoderState) {
    Refilled(s.r, s'.r) && s' == s.(r := s.r.(pos := s'.r.pos, unreadMarker := s'.r.unreadMarker, bitsLeft := 0))
  }

  /** `s1` is `s` with a restart, if one is due, carried out. */
  ghost predicate Loaded(sc: Scan, s: DecoderState, s1: DecoderState) {
    s1.r.Ok() && s1.r.src == s.r.src && s1.r.arrived == s.r.arrived && |s1.lastDc| == |s.lastDc| &&
    s1.nextRestart < 8 &&
    (s.Ready(sc) ==> SameEnd(sc, s, s1) && s1.r.Pending() == s.Stream(sc)) &&
    (s.Arrived(sc) ==> s1.r.Supplied()) &&
    (forall st :: s.Offers(sc, st) ==> At(s1.r, st, 0)) &&
    s1.lastDc == s.Dc(sc) && s1.toGo == s.ToGo(sc) && s1.nextRestart == s.NextNumber(sc)
  }

  /** The part of decode_mcu before the blocks. */
  method LoadState(sc: Scan, s: DecoderState) returns (res: Result, s1: DecoderState)
    requires s.r.Ok() && s.nextRestart < 8 && |s.lastDc| == |sc.dcTbl|
    ensures res == Complete ==> Loaded(sc, s, s1) && (!s.Due(sc) ==> s1 == s)
    ensures res != Complete ==> s.Due(sc) && Skipped(s, s1)
    ensures res == NeedData <==> s.Due(sc) && !s.r.Supplied()
    ensures res == LostSync ==> s.r.Terminated() && s.r.NextMarker() != RST0 + s.nextRestart
  {
    res, s1 := Complete, s;
    if s.Due(sc) { res, s1 := ProcessRestart(sc, s); }
  }

  lemma BlocksRead(sc: Scan, hs: HuffTables, want: seq<Wanted>, s: DecoderState, s1: DecoderState, s2: DecoderState,
      blocks: seq<Block>, st: Bits)
    requires sc.Valid() && hs.Valid() && |want| == |s.lastDc| == |sc.dcTbl| && Loaded(sc, s, s1)
    requires var m := ReadMcu(sc, hs, want, st, 0, s1.lastDc, 0);
             blocks == m.blocks && s2.lastDc == m.lastDc && At(s2.r, st, m.pos) && Refilled(s1.r, s2.r)
    requires s2.toGo == (s1.toGo - 1) % 0x1_0000_0000 && s2.nextRestart == s1.nextRestart
    ensures ReadOne(sc, hs, want, s, s2, blocks, st) && (s.Ready(sc) ==> SameEnd(sc, s, s2))
  {
    hide ReadMcu, DataBits, HasMarker, MarkerCode, AfterMarker, At, ToBits;
  }

  /** Having carried out a restart, or having skipped bytes before its marker, the decoder goes on as before. */
  lemma StillToRead(sc: Scan, s: DecoderState, s1: DecoderState)
    requires s.Ready(sc) && |s.lastDc| == |sc.dcTbl| &&
             if s.Due(sc) && !s.r.Supplied() then Skipped(s, s1) else Loaded(sc, s, s1)
    ensures Resumes(sc, s, s1)
  {
    hide DataBits, HasMarker, MarkerCode, AfterMarker, ToBits, At;
  }

  lemma OffersStream(sc: Scan, s: DecoderState)
    requires s.Ready(sc)
    ensures s.Offers(sc, s.Stream(sc))
  {
    hide DataBits, HasMarker, MarkerCode, AfterMarker, ToBits;
  }

  /** The state at the start of a scan. */
  function Fresh(sc: Scan, src: seq<Byte>, arrived: nat): DecoderState {
    DecoderState(Reader(src, arrived, 0, 0, 0, 0, false), Zeros(|sc.dcTbl|), sc.restartInterval, 0)
  }

  /** The entropy decoder object, with the data source it reads. */
  class Decoder {
    const sc: Scan
    const hs: HuffTables
    const ddc: seq<DTable>
    const dac: seq<DTable>
    const want: seq<Wanted>
    var s: DecoderState

    ghost predicate Valid()
      reads this
    {
      sc.Valid() && hs.Valid() && Derives(hs, ddc, dac) && |want| == |s.lastDc| == |sc.dcTbl| && s.r.Ok() &&
      s.nextRestart < 8
    }

    /** start_pass_huff_decoder. */
    constructor (sc: Scan, hs: HuffTables, want: seq<Wanted>, src: seq<Byte>, arrived: nat)
      requires sc.Valid() && hs.Valid() && |want| == |sc.dcTbl| && arrived <= |src|
      ensures Valid() && this.sc == sc && this.hs == hs && this.want == want
      ensures s == Fresh(sc, src, arrived)
    {
      var ddc, dac := [], [];
      for t := 0 to NUM_TBLS
        invariant |ddc| == |dac| == t
        invariant forall i: nat {:trigger TblNo(i)} ::
                    TblNo(i) && i < t ==> DDerived(hs.dc[i], ddc[i]) && DDerived(hs.ac[i], dac[i])
      {
        assert TblNo(t);
        var d := MakeDDerived(hs.dc[t]);
        var a := MakeDDerived(hs.ac[t]);
        ddc, dac := ddc + [d], dac + [a];
      }
      this.sc, this.hs, this.want, this.ddc, this.dac := sc, hs, want, ddc, dac;
      s := Fresh(sc, src, arrived);
    }

    /** More of the data arrive. */
    method Receive(n: nat)
      requires Valid()
      modifies this
      ensures Valid() && s == old(s).(r := old(s.r).(arrived := s.r.arrived))
      ensures s.r.arrived == if n < |s.r.src| - old(s.r.arrived) then old(s.r.arrived) + n else |s.r.src|
    {
      var more := if n < |s.r.src| - s.r.arrived then n else |s.r.src| - s.r.arrived;
      s := s.(r := s.r.(arrived := s.r.arrived + more));
    }

    /** decode_mcu: the blocks that the data spell, whatever stream `st` they are the beginning of.
        Input does not run out if the data, and those behind a restart that is due, have arrived
        with the marker that ends them. When it runs out, reading can go on from the state left as from
        the one before; that state is the same unless a restart was due, which has then been
        carried out if its marker had arrived. */
    method DecodeMcu(ghost st: Bits) returns (res: Result, blocks: seq<Block>)
      requires Valid()
      modifies this
      ensures Valid() && s.r.src == old(s.r.src) && s.r.arrived == old(s.r.arrived)
      ensures res == Complete && old(s).Offers(sc, st) ==> ReadOne(sc, hs, want, old(s), s, blocks, st)
      ensures res == Complete && old(s).Ready(sc) ==> SameEnd(sc, old(s), s)
      ensures old(s).Arrived(sc) ==> res == Complete
      ensures res == NeedData && old(s).Ready(sc) ==> Resumes(sc, old(s), s)
      ensures res == NeedData ==>
                if old(s).Due(sc) then if old(s).r.Supplied() then Loaded(sc, old(s), s) else Skipped(old(s), s)
                else s == old(s)
      ensures res == LostSync ==>
                old(s).Due(sc) && old(s).r.Terminated() && old(s).r.NextMarker() != RST0 + old(s).nextRestart &&
                Skipped(old(s), s)
    {
      hide Resumes, ReadOne, DataBits, HasMarker, MarkerCode, AfterMarker, ToBits;
      var s1;
      ghost var s0 := s;
      blocks := [];
      res, s1 := LoadState(sc, s);
      if res == NeedData && s0.Ready(sc) { StillToRead(sc, s0, s1); }
      if res != Complete {
        s := s1;
        return;
      }
      ghost var data := if At(s1.r, st, 0) then st else s1.r.Pending();
      var ok, dc, r';
      ok, blocks, dc, r' := DecodeBlocks(s1.r, sc, hs, ddc, dac, want, s1.lastDc, data, 0);
      if ok {
        s := DecoderState(r', dc, (s1.toGo - 1) % 0x1_0000_0000, s1.nextRestart);
        BlocksRead(sc, hs, want, s0, s1, s, blocks, data);
      } else {
        s := s1;
        res, blocks := NeedData, [];
        if s0.Ready(sc) { StillToRead(sc, s0, s1); }
      }
    }
  }
}
