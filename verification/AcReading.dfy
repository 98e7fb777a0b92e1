/**
 * What the bits of a progressive AC scan make of a block (jdphuff.c): the first pass of a band, its
 * refinement, and why a block given up for want of data can be decoded again.
 */
module AcReading {
  import opened AcBand
  import opened Bits
  import opened HuffDecoder
  import opened HuffmanCodes
  import opened Zigzag

  /** A band read: the block, the position behind it, and the ended bands still to come. */
  datatype BandRead = BandRead(block: Block, pos: nat, eobrun: nat)

  /** An end-of-band run of 2^r bands and as many as the r bits at `p` say. */
  function RunLength(st: Bits, p: nat, r: nat): (n: nat)
    ensures n > 0
  {
    Pow2(r) + Number(st, p, r)
  }

  // ---- first pass

  /** Ranks from `k` on, read from position `p`. */
  ghost function ReadFirst(h: HuffTable, bd: Band, st: Bits, p: nat, k: nat, b: Block): BandRead
    requires h.WellFormed() && bd.Ok()
    decreases 64 - k
  {
    if k > bd.se then BandRead(b, p, 0)
    else
      var sym := ReadSymbol(h, st, p);
      var p1 := p + sym.1;
      if sym.0 % 16 != 0 then
        ReadFirst(h, bd, st, p1 + sym.0 % 16, k + sym.0 / 16 + 1,
            Stored(bd.o, b, k + sym.0 / 16, Scaled(bd, ReadExtra(st, p1, sym.0 % 16))))
      else if sym.0 / 16 == 15 then ReadFirst(h, bd, st, p1, k + 16, b)
      else BandRead(b, p1 + sym.0 / 16, RunLength(st, p1, sym.0 / 16) - 1)
  }

  function Scaled(bd: Band, v: int): int {
    ToShort(v * Pow2(bd.al))
  }

  ghost function FirstMcu(h: HuffTable, bd: Band, st: Bits, p: nat, eobrun: nat, b: Block): BandRead
    requires h.WellFormed() && bd.Ok()
  {
    if eobrun > 0 then BandRead(b, p, eobrun - 1) else ReadFirst(h, bd, st, p, bd.ss, b)
  }

  lemma FirstOver(h: HuffTable, bd: Band, st: Bits, p: nat, k: nat, b: Block)
    requires h.WellFormed() && bd.Ok()
    ensures k > bd.se ==> ReadFirst(h, bd, st, p, k, b) == BandRead(b, p, 0)
  {
  }

  /** The band's ranks below `k`, but for the last, have the values of `f`. */
  predicate Settled(bd: Band, k: nat, b: Block, f: Block)
    requires bd.Ok()
  {
    forall j: nat :: j < k && j < bd.se ==> f[bd.o[j]] == b[bd.o[j]]
  }

  /** Even where a run takes the decoder past the end of the band. */
  lemma StoredOthers(bd: Band, k: nat, b: Block, v: int)
    requires bd.Ok() && SpareLast(bd.o) && k < 80
    ensures Settled(bd, k, b, Stored(bd.o, b, k, v))
  {
  }

  lemma {:induction false} FirstSettled(h: HuffTable, bd: Band, st: Bits, p: nat, k: nat, b: Block)
    requires h.WellFormed() && bd.Ok() && SpareLast(bd.o)
    ensures Settled(bd, k, b, ReadFirst(h, bd, st, p, k, b).block)
    decreases 64 - k
  {
    hide ReadSymbol, Stored, Scaled, ReadExtra;
    if k <= bd.se {
      var sym := ReadSymbol(h, st, p);
      var p1 := p + sym.1;
      if sym.0 % 16 != 0 {
        var v := Scaled(bd, ReadExtra(st, p1, sym.0 % 16));
        StoredOthers(bd, k + sym.0 / 16, b, v);
        FirstSettled(h, bd, st, p1 + sym.0 % 16, k + sym.0 / 16 + 1, Stored(bd.o, b, k + sym.0 / 16, v));
      } else if sym.0 / 16 == 15 {
        FirstSettled(h, bd, st, p1, k + 16, b);
      }
    }
  }

  /** `c` is `b` with some of the coefficients of `f`. */
  predicate Mixed(b: Block, c: Block, f: Block) {
    forall n: nat :: n < 64 ==> c[n] == b[n] || c[n] == f[n]
  }

  /** Coefficients stored in advance make no difference to a band read from its start. */
  lemma {:induction false} FirstAgain(h: HuffTable, bd: Band, st: Bits, p: nat, k: nat, b: Block, c: Block)
    requires h.WellFormed() && bd.Ok() && Mixed(b, c, ReadFirst(h, bd, st, p, k, b).block)
    ensures ReadFirst(h, bd, st, p, k, c) == ReadFirst(h, bd, st, p, k, b)
    decreases 64 - k
  {
    hide ReadSymbol, Scaled, ReadExtra;
    var sym := ReadSymbol(h, st, p);
    var p1 := p + sym.1;
    if k <= bd.se && sym.0 % 16 != 0 {
      var v := Scaled(bd, ReadExtra(st, p1, sym.0 % 16));
      FirstAgain(h, bd, st, p1 + sym.0 % 16, k + sym.0 / 16 + 1, Stored(bd.o, b, k + sym.0 / 16, v),
          Stored(bd.o, c, k + sym.0 / 16, v));
    } else if k <= bd.se && sym.0 / 16 == 15 {
      FirstAgain(h, bd, st, p1, k + 16, b, c);
    } else {
      assert b == c;
    }
  }

  // ---- refinement

  /** Bit `al` of a two's complement number. */
  predicate HasBit(v: int, al: nat) {
    v / Pow2(al) % 2 == 1
  }

  /** A correction bit applied to the coefficient of rank `k`. */
  function Corrected(bd: Band, b: Block, k: nat, bit: bool): Block
    requires k < 80
  {
    var v := b[bd.o[k]];
    if bit && !HasBit(v, bd.al) then b[bd.o[k] := ToShort(if v >= 0 then v + Pow2(bd.al) else v - Pow2(bd.al))] else b
  }

  datatype Skipped = Skipped(block: Block, k: nat, pos: nat)

  /** Past nonzero coefficients, correcting them, and `r` zeros, to the next zero or the end. */
  function Skip(bd: Band, st: Bits, p: nat, k: nat, r: nat, b: Block): (s: Skipped)
    requires bd.Ok() && k <= bd.se + 1
    ensures k <= s.k <= bd.se + 1
    decreases bd.se + 1 - k
  {
    if k > bd.se then Skipped(b, k, p)
    else if b[bd.o[k]] != 0 then Skip(bd, st, p + 1, k + 1, r, Corrected(bd, b, k, Bit(st, p)))
    else if r == 0 then Skipped(b, k, p)
    else Skip(bd, st, p, k + 1, r - 1, b)
  }

  /** The value a new coefficient has. */
  function NewValue(bd: Band, positive: bool): int {
    var p1: int := Pow2(bd.al);
    if positive then p1 else -p1
  }

  /** What a symbol other than an end of band leads to: position, rank and block. */
  function Advanced(bd: Band, st: Bits, p: nat, k: nat, n: nat, adds: bool, b: Block): (s: Skipped)
    requires bd.Ok() && k <= bd.se
    ensures s.k > k
  {
    var s := Skip(bd, st, if adds then p + 1 else p, k, n, b);
    Skipped(if adds then Stored(bd.o, s.block, s.k, NewValue(bd, Bit(st, p))) else s.block, s.k + 1, s.pos)
  }

  datatype RefineRead = RefineRead(block: Block, k: nat, pos: nat, eobrun: nat)

  /** Ranks from `k` on up to the end-of-band symbol, if one comes. */
  ghost function ReadRefine(h: HuffTable, bd: Band, st: Bits, p: nat, k: nat, b: Block): RefineRead
    requires h.WellFormed() && bd.Ok()
    decreases 64 - k
  {
    if k > bd.se then RefineRead(b, k, p, 0)
    else
      var sym := ReadSymbol(h, st, p);
      var p1 := p + sym.1;
      if sym.0 % 16 != 0 || sym.0 / 16 == 15 then
        var s := Advanced(bd, st, p1, k, sym.0 / 16, sym.0 % 16 != 0, b);
        ReadRefine(h, bd, st, s.pos, s.k, s.block)
      else RefineRead(b, k, p1 + sym.0 / 16, RunLength(st, p1, sym.0 / 16))
  }

  lemma BandOver(h: HuffTable, bd: Band, st: Bits, p: nat, k: nat, b: Block)
    requires h.WellFormed() && bd.Ok()
    ensures k > bd.se ==> ReadRefine(h, bd, st, p, k, b) == RefineRead(b, k, p, 0)
  {
  }

  datatype Finished = Finished(block: Block, pos: nat)

  /** The rest of an ended band: a correction bit for every nonzero coefficient. */
  function Finish(bd: Band, st: Bits, p: nat, k: nat, b: Block): Finished
    requires bd.Ok()
    decreases bd.se + 1 - k
  {
    if k > bd.se then Finished(b, p)
    else if b[bd.o[k]] != 0 then Finish(bd, st, p + 1, k + 1, Corrected(bd, b, k, Bit(st, p)))
    else Finish(bd, st, p, k + 1, b)
  }

  function EndRefine(bd: Band, st: Bits, a: RefineRead): BandRead
    requires bd.Ok()
  {
    if a.eobrun == 0 then BandRead(a.block, a.pos, 0)
    else
      var f := Finish(bd, st, a.pos, a.k, a.block);
      BandRead(f.block, f.pos, a.eobrun - 1)
  }

  ghost function RefineMcu(h: HuffTable, bd: Band, st: Bits, p: nat, eobrun: nat, b: Block): BandRead
    requires h.WellFormed() && bd.Ok()
  {
    EndRefine(bd, st, if eobrun == 0 then ReadRefine(h, bd, st, p, bd.ss, b) else RefineRead(b, bd.ss, p, eobrun))
  }

  // ---- a block given up and decoded again

  /** The value that a correction bit makes of `v`. */
  function CorrectedValue(al: nat, v: int, bit: bool): int {
    if bit && !HasBit(v, al) then ToShort(if v >= 0 then v + Pow2(al) else v - Pow2(al)) else v
  }

  lemma CorrectedAt(bd: Band, b: Block, k: nat, bit: bool, n: nat)
    requires k < 80 && n < 64
    ensures Corrected(bd, b, k, bit)[n] == if n == bd.o[k] then CorrectedValue(bd.al, b[n], bit) else b[n]
  {
    hide HasBit, ToShort;
  }

  /** A correction made twice is made once, and leaves no zero. */
  lemma CorrectedTwice(al: nat, v: int, bit: bool)
    requires al <= 13 && v != 0
    ensures var w := CorrectedValue(al, v, bit); w != 0 && CorrectedValue(al, w, bit) == w
  {
    hide HasBit, ToShort;
    if bit && !HasBit(v, al) {
      BitAdded(al, v);
      var w := if v >= 0 then v + Pow2(al) else v - Pow2(al);
      ShortHasBit(al, w);
      NoBitInZero(al);
    }
  }

  lemma NoBitInZero(al: nat)
    ensures !HasBit(0, al)
  {
    DivUnique(0, Pow2(al), 0, 0);
  }

  lemma BitAdded(al: nat, v: int)
    requires !HasBit(v, al)
    ensures HasBit(v + Pow2(al), al) && HasBit(v - Pow2(al), al)
  {
    hide Pow2;
    OneMore(v, Pow2(al));
  }

  lemma OneMore(v: int, d: nat)
    requires d > 0
    ensures (v + d) / d == v / d + 1 && (v - d) / d == v / d - 1
  {
    var q, r := v / d, v % d;
    assert v == d * q + r;
    assert d * (q + 1) == d * q + d && d * (q - 1) == d * q - d;
    DivUnique(v + d, d, q + 1, r);
    DivUnique(v - d, d, q - 1, r);
  }

  lemma ShortHasBit(al: nat, v: int)
    requires al <= 13
    ensures HasBit(ToShort(v), al) == HasBit(v, al)
  {
    var q := if v % 0x1_0000 < 0x8000 then -(v / 0x1_0000) else -(v / 0x1_0000) - 1;
    assert ToShort(v) == v + q * 0x1_0000;
    MoreHasBit(al, v, q);
  }

  lemma MoreHasBit(al: nat, v: int, q: int)
    requires al <= 13
    ensures HasBit(v + q * 0x1_0000, al) == HasBit(v, al)
  {
    hide Pow2;
    var d, e := Pow2(al), Pow2(15 - al);
    assert d * e == 0x8000 by {
      HalfWord();
      Pow2Add(al, 15 - al);
    }
    var m := q * e;
    assert q * 0x1_0000 == 2 * m * d by {
      MulAssoc(q, e, d);
      assert q * 0x1_0000 == 2 * (q * 0x8000);
    }
    DivUnique(v + q * 0x1_0000, d, v / d + 2 * m, v % d);
    OddPlusEven(v / d, m);
  }

  lemma HalfWord()
    ensures Pow2(15) == 0x8000
  {
    Powers();
    assert Pow2(16) == 2 * Pow2(15);
  }

  lemma OddPlusEven(x: int, m: int)
    ensures (x + 2 * m) % 2 == x % 2
  {
  }

  lemma {:induction false} SkipSettled(bd: Band, st: Bits, p: nat, k: nat, r: nat, b: Block)
    requires bd.Ok() && k <= bd.se + 1
    ensures Settled(bd, k, b, Skip(bd, st, p, k, r, b).block)
    decreases bd.se + 1 - k
  {
    hide Corrected;
    if k > bd.se {
    } else if b[bd.o[k]] != 0 {
      SkipSettled(bd, st, p + 1, k + 1, r, Corrected(bd, b, k, Bit(st, p)));
      CorrectedOthers(bd, k, b, Bit(st, p));
    } else if r > 0 {
      SkipSettled(bd, st, p, k + 1, r - 1, b);
    }
  }

  lemma CorrectedOthers(bd: Band, k: nat, b: Block, bit: bool)
    requires bd.Ok() && k <= bd.se
    ensures Settled(bd, k, b, Corrected(bd, b, k, bit))
  {
    hide HasBit, ToShort;
  }

  lemma {:induction false} FinishSettled(bd: Band, st: Bits, p: nat, k: nat, b: Block)
    requires bd.Ok()
    ensures Settled(bd, k, b, Finish(bd, st, p, k, b).block)
    decreases bd.se + 1 - k
  {
    hide Corrected;
    if k > bd.se {
    } else if b[bd.o[k]] != 0 {
      FinishSettled(bd, st, p + 1, k + 1, Corrected(bd, b, k, Bit(st, p)));
      CorrectedOthers(bd, k, b, Bit(st, p));
    } else {
      FinishSettled(bd, st, p, k + 1, b);
    }
  }

  lemma AdvancedSettled(bd: Band, st: Bits, p: nat, k: nat, n: nat, adds: bool, b: Block)
    requires bd.Ok() && SpareLast(bd.o) && k <= bd.se
    ensures var q := if adds then p + 1 else p;
            var s, t := Advanced(bd, st, p, k, n, adds, b), Skip(bd, st, q, k, n, b);
            Settled(bd, k, b, s.block) && Settled(bd, t.k, t.block, s.block)
  {
    hide Skip;
    var s := Skip(bd, st, if adds then p + 1 else p, k, n, b);
    SkipSettled(bd, st, if adds then p + 1 else p, k, n, b);
    StoredOthers(bd, s.k, s.block, NewValue(bd, Bit(st, p)));
  }

  lemma {:induction false} RefineSettled(h: HuffTable, bd: Band, st: Bits, p: nat, k: nat, b: Block)
    requires h.WellFormed() && bd.Ok() && SpareLast(bd.o)
    ensures Settled(bd, k, b, EndRefine(bd, st, ReadRefine(h, bd, st, p, k, b)).block)
    decreases 64 - k
  {
    hide Advanced, ReadSymbol, RunLength;
    if k <= bd.se {
      var sym := ReadSymbol(h, st, p);
      var p1 := p + sym.1;
      if sym.0 % 16 != 0 || sym.0 / 16 == 15 {
        var s := Advanced(bd, st, p1, k, sym.0 / 16, sym.0 % 16 != 0, b);
        AdvancedSettled(bd, st, p1, k, sym.0 / 16, sym.0 % 16 != 0, b);
        RefineSettled(h, bd, st, s.pos, s.k, s.block);
      } else {
        FinishSettled(bd, st, p1 + sym.0 / 16, k, b);
      }
    }
  }

  /** `c` is `b` with some of the corrections made in advance that lead to `f`, but not the last. */
  predicate Ahead(bd: Band, b: Block, c: Block, f: Block)
    requires bd.Ok()
  {
    forall n: nat :: n < 64 ==>
      c[n] == b[n] || (b[n] != 0 && c[n] != 0 && c[n] == f[n] && n != bd.o[bd.se])
  }

  lemma CorrectAhead(bd: Band, k: nat, b: Block, c: Block, bit: bool, f: Block)
    requires bd.Ok() && k <= bd.se && b[bd.o[k]] != 0 && Ahead(bd, b, c, f)
    requires Settled(bd, k + 1, Corrected(bd, b, k, bit), f)
    ensures Ahead(bd, Corrected(bd, b, k, bit), Corrected(bd, c, k, bit), f)
  {
    hide Corrected, CorrectedValue;
    var n := bd.o[k];
    CorrectedTwice(bd.al, b[n], bit);
    CorrectedTwice(bd.al, c[n], bit);
    forall m: nat | m < 64
      ensures Corrected(bd, b, k, bit)[m] == (if m == n then CorrectedValue(bd.al, b[m], bit) else b[m])
      ensures Corrected(bd, c, k, bit)[m] == (if m == n then CorrectedValue(bd.al, c[m], bit) else c[m])
    {
      CorrectedAt(bd, b, k, bit, m);
      CorrectedAt(bd, c, k, bit, m);
    }
  }

  lemma {:induction false} SkipStops(bd: Band, st: Bits, p: nat, k: nat, r: nat, b: Block)
    requires bd.Ok() && k <= bd.se + 1
    ensures var s := Skip(bd, st, p, k, r, b); s.k <= bd.se ==> s.block[bd.o[s.k]] == 0
    decreases bd.se + 1 - k
  {
    hide Corrected;
    if k > bd.se {
    } else if b[bd.o[k]] != 0 {
      SkipStops(bd, st, p + 1, k + 1, r, Corrected(bd, b, k, Bit(st, p)));
    } else if r > 0 {
      SkipStops(bd, st, p, k + 1, r - 1, b);
    }
  }

  lemma {:induction false} SkipAhead(bd: Band, st: Bits, p: nat, k: nat, r: nat, b: Block, c: Block, f: Block)
    requires bd.Ok() && k <= bd.se + 1 && Ahead(bd, b, c, f)
    requires Settled(bd, Skip(bd, st, p, k, r, b).k, Skip(bd, st, p, k, r, b).block, f)
    ensures var s, t := Skip(bd, st, p, k, r, b), Skip(bd, st, p, k, r, c);
            s.k == t.k && s.pos == t.pos && Ahead(bd, s.block, t.block, f)
    decreases bd.se + 1 - k
  {
    hide Corrected;
    if k > bd.se {
    } else if b[bd.o[k]] != 0 {
      var b1, bit := Corrected(bd, b, k, Bit(st, p)), Bit(st, p);
      SkipSettled(bd, st, p + 1, k + 1, r, b1);
      CorrectAhead(bd, k, b, c, bit, f);
      SkipAhead(bd, st, p + 1, k + 1, r, b1, Corrected(bd, c, k, bit), f);
    } else if r > 0 {
      SkipAhead(bd, st, p, k + 1, r - 1, b, c, f);
    }
  }

  lemma {:induction false} FinishAhead(bd: Band, st: Bits, p: nat, k: nat, b: Block, c: Block)
    requires bd.Ok() && Ahead(bd, b, c, Finish(bd, st, p, k, b).block)
    ensures Finish(bd, st, p, k, c) == Finish(bd, st, p, k, b)
    decreases bd.se + 1 - k
  {
    hide Corrected;
    var f := Finish(bd, st, p, k, b).block;
    if k > bd.se {
      assert b == c;
    } else if b[bd.o[k]] != 0 {
      var b1, bit := Corrected(bd, b, k, Bit(st, p)), Bit(st, p);
      FinishSettled(bd, st, p + 1, k + 1, b1);
      CorrectAhead(bd, k, b, c, bit, f);
      FinishAhead(bd, st, p + 1, k + 1, b1, Corrected(bd, c, k, bit));
    } else {
      FinishAhead(bd, st, p, k + 1, b, c);
    }
  }

  lemma AdvancedAhead(bd: Band, st: Bits, p: nat, k: nat, n: nat, adds: bool, b: Block, c: Block, f: Block)
    requires bd.Ok() && SpareLast(bd.o) && k <= bd.se && Ahead(bd, b, c, f)
    requires Settled(bd, Advanced(bd, st, p, k, n, adds, b).k, Advanced(bd, st, p, k, n, adds, b).block, f)
    ensures var s, t := Advanced(bd, st, p, k, n, adds, b), Advanced(bd, st, p, k, n, adds, c);
            s.k == t.k && s.pos == t.pos && Ahead(bd, s.block, t.block, f)
  {
    hide Skip;
    AdvancedSettled(bd, st, p, k, n, adds, b);
    SkipAhead(bd, st, if adds then p + 1 else p, k, n, b, c, f);
  }

  /** Corrections made in advance make no difference to a band read from its start. */
  lemma {:induction false} ReadAgain(h: HuffTable, bd: Band, st: Bits, p: nat, k: nat, b: Block, c: Block)
    requires h.WellFormed() && bd.Ok() && SpareLast(bd.o)
    requires Ahead(bd, b, c, EndRefine(bd, st, ReadRefine(h, bd, st, p, k, b)).block)
    ensures EndRefine(bd, st, ReadRefine(h, bd, st, p, k, c)) == EndRefine(bd, st, ReadRefine(h, bd, st, p, k, b))
    decreases 64 - k
  {
    hide Advanced, ReadSymbol, RunLength;
    if k > bd.se {
      assert b == c;
    } else {
      var sym := ReadSymbol(h, st, p);
      var p1 := p + sym.1;
      if sym.0 % 16 != 0 || sym.0 / 16 == 15 {
        var s := Advanced(bd, st, p1, k, sym.0 / 16, sym.0 % 16 != 0, b);
        var t := Advanced(bd, st, p1, k, sym.0 / 16, sym.0 % 16 != 0, c);
        RefineSettled(h, bd, st, s.pos, s.k, s.block);
        AdvancedAhead(bd, st, p1, k, sym.0 / 16, sym.0 % 16 != 0, b, c,
            EndRefine(bd, st, ReadRefine(h, bd, st, p, k, b)).block);
        ReadAgain(h, bd, st, s.pos, s.k, s.block, t.block);
      } else {
        FinishAhead(bd, st, p1 + sym.0 / 16, k, b, c);
      }
    }
  }

  lemma RefineAgain(h: HuffTable, bd: Band, st: Bits, p: nat, eobrun: nat, b: Block, c: Block)
    requires h.WellFormed() && bd.Ok() && SpareLast(bd.o)
    requires Ahead(bd, b, c, RefineMcu(h, bd, st, p, eobrun, b).block)
    ensures RefineMcu(h, bd, st, p, eobrun, c) == RefineMcu(h, bd, st, p, eobrun, b)
  {
    if eobrun == 0 {
      ReadAgain(h, bd, st, p, bd.ss, b, c);
    } else {
      FinishAhead(bd, st, p, bd.ss, b, c);
    }
  }
}
