/**
 * Progressive decoding undoes progressive coding: with one more scan a decoder's coefficients
 * gain one more bit, whatever runs of ended bands and deferred correction bits the scan holds.
 */
module AcRoundTrip {
  import opened Bits
  import opened EntropySpec
  import opened EobRuns
  import opened AcBand
  import opened AcReading
  import opened HuffmanCodes
  import opened HuffDecoder
  import opened RoundTrip
  import opened Zigzag

  // ---- arithmetic

  lemma {:induction false} ShrBound(a: nat, n: nat)
    ensures Shr(a, n) * Pow2(n) <= a
  {
    if n > 0 {
      ShrBound(a, n - 1);
      MulAtLeast(2 * Shr(a, n), Shr(a, n - 1), Pow2(n - 1));
      MulAssoc(Shr(a, n), 2, Pow2(n - 1));
    }
  }

  /** A 16-bit coefficient has 16-bit point transforms. */
  lemma PointShort(v: int, al: nat)
    requires -32767 <= v <= 32767
    ensures ToShort(Point(v, al)) == Point(v, al)
  {
    ShrBound(if v < 0 then -v else v, al);
    MulNegate(Mag(v, al), Pow2(al));
  }

  /** The point transform one bit up, in terms of this one. */
  lemma PointUp(v: int, al: nat)
    ensures Mag(v, al + 1) == Mag(v, al) / 2
    ensures Point(v, al + 1) == (if v < 0 then -(2 * (Mag(v, al) / 2)) else 2 * (Mag(v, al) / 2)) * Pow2(al)
    ensures Point(v, al + 1) == 0 <==> Mag(v, al) <= 1
    ensures Mag(v, al) > 1 ==> (Point(v, al + 1) >= 0 <==> v >= 0)
  {
    var h := Mag(v, al) / 2;
    MulAssoc(if v < 0 then -h else h, 2, Pow2(al));
    MulNegate(h, Pow2(al + 1));
    if h > 0 { MulAtLeast(1, h, Pow2(al + 1)); }
  }

  lemma EvenHasNotBit(h: int, al: nat)
    ensures !HasBit(2 * h * Pow2(al), al)
  {
    DivUnique(2 * h * Pow2(al), Pow2(al), 2 * h, 0);
  }

  // ---- blocks, half decoded

  /** `b` has the coefficients of `z` below rank `k` of the band, and is `b0` otherwise. */
  predicate Holds(bd: Band, z: seq<int>, b0: Block, k: nat, b: Block) {
    |z| == 64 &&
    forall j :: 0 <= j < 64 ==> b[bd.o[j]] == if bd.ss <= j <= bd.se && j < k then Point(z[j], bd.al) else b0[bd.o[j]]
  }

  /** Before a refinement the band has been sent with one bit less. */
  predicate Prior(bd: Band, z: seq<int>, b0: Block) {
    |z| == 64 && forall j :: bd.ss <= j <= bd.se < 64 ==> b0[bd.o[j]] == Point(z[j], bd.al + 1)
  }

  predicate Cleared(bd: Band, b0: Block) {
    forall j :: bd.ss <= j <= bd.se < 64 ==> b0[bd.o[j]] == 0
  }

  ghost predicate Halfway(bd: Band, z: seq<int>, b0: Block, k: nat, b: Block) {
    bd.Ok() && Short(z) && Holds(bd, z, b0, k, b) && Prior(bd, z, b0)
  }

  lemma HoldsMore(bd: Band, z: seq<int>, b0: Block, k: nat, b: Block, v: int)
    requires bd.Ok() && bd.ss <= k <= bd.se && Holds(bd, z, b0, k, b) && v == Point(z[k], bd.al)
    ensures Holds(bd, z, b0, k + 1, b[bd.o[k] := v])
  {
  }

  lemma SameHolds(bd: Band, z: seq<int>, b0: Block, k: nat, b: Block)
    requires bd.Ok() && bd.ss <= k <= bd.se && Holds(bd, z, b0, k, b) && b0[bd.o[k]] == Point(z[k], bd.al)
    ensures Holds(bd, z, b0, k + 1, b)
  {
  }

  /** A coefficient nonzero before takes its correction bit. */
  lemma CorrectOne(bd: Band, z: seq<int>, b0: Block, k: nat, b: Block, bit: bool)
    requires Halfway(bd, z, b0, k, b) && bd.ss <= k <= bd.se && Mag(z[k], bd.al) > 1 &&
             bit == (Mag(z[k], bd.al) % 2 == 1)
    ensures b[bd.o[k]] != 0 && Halfway(bd, z, b0, k + 1, Corrected(bd, b, k, bit))
  {
    hide Pow2;
    var v, m := z[k], Mag(z[k], bd.al);
    var h: int := m / 2;
    var s: int := if v < 0 then -h else h;
    PointUp(v, bd.al);
    assert b[bd.o[k]] == Point(v, bd.al + 1) == 2 * s * Pow2(bd.al);
    EvenHasNotBit(s, bd.al);
    var v' := if v < 0 then 2 * s * Pow2(bd.al) - Pow2(bd.al) else 2 * s * Pow2(bd.al) + Pow2(bd.al);
    MulDistribute(2 * s, if v < 0 then -1 else 1, Pow2(bd.al));
    PointShort(v, bd.al);
    if bit {
      assert v' == Point(v, bd.al);
      HoldsMore(bd, z, b0, k, b, v');
    } else {
      assert Point(v, bd.al + 1) == Point(v, bd.al);
      SameHolds(bd, z, b0, k, b);
    }
  }

  /** A zero that stays zero. */
  lemma PassZero(bd: Band, z: seq<int>, b0: Block, k: nat, b: Block)
    requires Halfway(bd, z, b0, k, b) && bd.ss <= k <= bd.se && Mag(z[k], bd.al) == 0
    ensures b[bd.o[k]] == 0 && Halfway(bd, z, b0, k + 1, b)
  {
    PointUp(z[k], bd.al);
    SameHolds(bd, z, b0, k, b);
  }

  lemma OnePoint(bd: Band, v: int)
    requires Mag(v, bd.al) == 1
    ensures Point(v, bd.al) == NewValue(bd, v >= 0)
  {
    MulNegate(1, Pow2(bd.al));
  }

  /** A zero that becomes nonzero. */
  lemma MakeNew(bd: Band, z: seq<int>, b0: Block, k: nat, b: Block)
    requires Halfway(bd, z, b0, k, b) && bd.ss <= k <= bd.se && Mag(z[k], bd.al) == 1
    ensures b[bd.o[k]] == 0 && Halfway(bd, z, b0, k + 1, Stored(bd.o, b, k, NewValue(bd, z[k] >= 0)))
  {
    hide Shr;
    PointUp(z[k], bd.al);
    OnePoint(bd, z[k]);
    HoldsMore(bd, z, b0, k, b, NewValue(bd, z[k] >= 0));
  }

  // ---- what the stream shows

  lemma BitReads(t: CTables, v: nat, st: Bits, p: nat, q: nat)
    requires t.Valid() && v <= 1 && SentOne(t, Raw(v, 1), st, p, q)
    ensures q == p + 1 && Bit(st, p) == (v == 1)
  {
    assert ToBits(v, 1) == [v == 1];
    assert Take(st, p, 1)[0] == Bit(st, p);
  }

  lemma {:induction false} BelowBound(n: nat, k: nat)
    requires 0 < n < Pow2(k + 1)
    ensures Pow2(Below(n)) <= n < 2 * Pow2(Below(n)) && Below(n) <= k
    decreases n
  {
    if n >= 2 { BelowBound(n / 2, k - 1); }
  }

  lemma RunFits(n: nat)
    requires 0 < n <= MAX_EOBRUN
    ensures Pow2(Below(n)) <= n < 2 * Pow2(Below(n)) && Below(n) <= 14
  {
    assert Pow2(15) == 0x8000;
    BelowBound(n, 14);
  }

  /** The symbol and extra bits of a run of ended bands. */
  lemma EobReads(hs: HuffTables, t: CTables, tbl: nat, n: nat, st: Bits, p: nat, q: nat)
    requires Matches(hs, t) && TblNo(tbl) && 0 < n <= MAX_EOBRUN && Sent(t, EobItems(tbl, n), st, p, q)
    ensures var sym := ReadSymbol(hs.Ac(tbl), st, p);
            sym.0 % 16 == 0 && sym.0 / 16 <= 14 && q == p + sym.1 + sym.0 / 16 &&
            RunLength(st, p + sym.1, sym.0 / 16) == n
  {
    hide SentFirst, SentOne, RunLength, Below, Pow2, ReadSymbol;
    var r := Below(n);
    RunFits(n);
    var a := Sym(AC, tbl, r * 16);
    var m := FirstItem(t, a, if n < 2 then [] else [Raw(n, r)], st, p, q);
    SymbolReads(hs, t, a, st, p, m);
    SixteenSplit(r, 0);
    ExtraRun(t, n, st, m, q);
  }

  lemma ExtraRun(t: CTables, n: nat, st: Bits, p: nat, q: nat)
    requires t.Valid() && 0 < n && Pow2(Below(n)) <= n < 2 * Pow2(Below(n)) &&
             Sent(t, if n < 2 then [] else [Raw(n, Below(n))], st, p, q)
    ensures q == p + Below(n) && RunLength(st, p, Below(n)) == n
  {
    var r := Below(n);
    if n >= 2 {
      SingleItem(t, Raw(n, r), st, p, q);
      NumberIsValue(st, p, r);
      ValueToBits(n, r);
      DivUnique(n, Pow2(r), 1, n - Pow2(r));
    }
  }

  // ---- refinement: what lies between two symbols

  /** The zeros among ranks i .. j-1. */
  function Zeros(bd: Band, z: seq<int>, i: nat, j: nat): (n: nat)
    requires |z| == 64 && i <= j <= 64
    ensures n <= j - i
    decreases j - i
  {
    if i == j then 0 else Zeros(bd, z, i, j - 1) + (if Mag(z[j - 1], bd.al) == 0 then 1 else 0)
  }

  predicate NoneBecomes(bd: Band, z: seq<int>, i: nat, j: nat)
    requires |z| == 64 && i <= j <= 64
  {
    forall k :: i <= k < j ==> Mag(z[k], bd.al) != 1
  }

  /** The correction bits of ranks k0 .. k-1 take the decoder past them. */
  lemma {:induction false} SkipReads(t: CTables, bd: Band, z: seq<int>, b0: Block, k0: nat, k: nat, r: nat, st: Bits,
      p: nat, q: nat, b: Block)
    returns (b': Block)
    requires t.Valid() && bd.Ok() && |z| == 64 && Halfway(bd, z, b0, k0, b) && bd.ss <= k0 <= k <= bd.se + 1 &&
             NoneBecomes(bd, z, k0, k)
    requires Zeros(bd, z, k0, k) <= r && Sent(t, Corrections(bd, z, k0, k), st, p, q)
    ensures Halfway(bd, z, b0, k, b')
    ensures Skip(bd, st, p, k0, r, b) == Skip(bd, st, q, k, r - Zeros(bd, z, k0, k), b')
    decreases k
  {
    hide Skip, SentFirst, SentOne, Sent, Halfway, Shr;
    if k == k0 {
      NoneSent(t, st, p, q);
      b' := b;
    } else {
      var m := SentSplit(t, Corrections(bd, z, k0, k - 1), if Mag(z[k - 1], bd.al) > 1
          then [CorrectionBit(z[k - 1], bd.al)] else [], st, p, q);
      var b1 := SkipReads(t, bd, z, b0, k0, k - 1, r, st, p, m, b);
      b' := SkipOne(t, bd, z, b0, k - 1, r - Zeros(bd, z, k0, k - 1), st, m, q, b1);
    }
  }

  lemma SkipOne(t: CTables, bd: Band, z: seq<int>, b0: Block, k: nat, r: nat, st: Bits, p: nat, q: nat, b: Block)
    returns (b': Block)
    requires t.Valid() && Halfway(bd, z, b0, k, b) && bd.ss <= k <= bd.se && Mag(z[k], bd.al) != 1 &&
             (Mag(z[k], bd.al) == 0 ==> r > 0)
    requires Sent(t, if Mag(z[k], bd.al) > 1 then [CorrectionBit(z[k], bd.al)] else [], st, p, q)
    ensures Halfway(bd, z, b0, k + 1, b')
    ensures Skip(bd, st, p, k, r, b) == Skip(bd, st, q, k + 1, if Mag(z[k], bd.al) == 0 then r - 1 else r, b')
  {
    if Mag(z[k], bd.al) > 1 {
      SingleItem(t, CorrectionBit(z[k], bd.al), st, p, q);
      BitReads(t, Mag(z[k], bd.al) % 2, st, p, q);
      CorrectOne(bd, z, b0, k, b, Bit(st, p));
      b' := Corrected(bd, b, k, Bit(st, p));
    } else {
      NoneSent(t, st, p, q);
      PassZero(bd, z, b0, k, b);
      b' := b;
    }
  }

  /** The same behind the end of the band. */
  lemma {:induction false} FinishReads(t: CTables, bd: Band, z: seq<int>, b0: Block, k0: nat, k: nat, st: Bits,
      p: nat, q: nat, b: Block)
    returns (b': Block)
    requires t.Valid() && bd.Ok() && |z| == 64 && Halfway(bd, z, b0, k0, b) && bd.ss <= k0 <= k <= bd.se + 1 &&
             NoneBecomes(bd, z, k0, k)
    requires Sent(t, Corrections(bd, z, k0, k), st, p, q)
    ensures Halfway(bd, z, b0, k, b') && Finish(bd, st, p, k0, b) == Finish(bd, st, q, k, b')
    decreases k
  {
    hide Finish, SentFirst, SentOne, Sent, Halfway, Shr;
    if k == k0 {
      NoneSent(t, st, p, q);
      b' := b;
    } else {
      var m := SentSplit(t, Corrections(bd, z, k0, k - 1), if Mag(z[k - 1], bd.al) > 1
          then [CorrectionBit(z[k - 1], bd.al)] else [], st, p, q);
      var b1 := FinishReads(t, bd, z, b0, k0, k - 1, st, p, m, b);
      b' := FinishOne(t, bd, z, b0, k - 1, st, m, q, b1);
    }
  }

  lemma FinishOne(t: CTables, bd: Band, z: seq<int>, b0: Block, k: nat, st: Bits, p: nat, q: nat, b: Block)
    returns (b': Block)
    requires t.Valid() && Halfway(bd, z, b0, k, b) && bd.ss <= k <= bd.se && Mag(z[k], bd.al) != 1
    requires Sent(t, if Mag(z[k], bd.al) > 1 then [CorrectionBit(z[k], bd.al)] else [], st, p, q)
    ensures Halfway(bd, z, b0, k + 1, b') && Finish(bd, st, p, k, b) == Finish(bd, st, q, k + 1, b')
  {
    if Mag(z[k], bd.al) > 1 {
      SingleItem(t, CorrectionBit(z[k], bd.al), st, p, q);
      BitReads(t, Mag(z[k], bd.al) % 2, st, p, q);
      CorrectOne(bd, z, b0, k, b, Bit(st, p));
      b' := Corrected(bd, b, k, Bit(st, p));
    } else {
      NoneSent(t, st, p, q);
      PassZero(bd, z, b0, k, b);
      b' := b;
    }
  }

  // ---- refinement: a block's items

  /** At every correction bit buffered since rank `k0` at most fifteen zeros had gone by. */
  predicate Early(bd: Band, z: seq<int>, k0: nat, k: nat)
    requires |z| == 64 && k0 <= k <= 64
  {
    forall j :: k0 <= j < k && Mag(z[j], bd.al) != 0 ==> Zeros(bd, z, k0, j) <= 15
  }

  lemma {:induction false} ZerosSplit(bd: Band, z: seq<int>, i: nat, m: nat, j: nat)
    requires |z| == 64 && i <= m <= j <= 64
    ensures Zeros(bd, z, i, j) == Zeros(bd, z, i, m) + Zeros(bd, z, m, j)
    decreases j
  {
    if m < j { ZerosSplit(bd, z, i, m, j - 1); }
  }

  /** The sixteenth zero. */
  lemma {:induction false} Sixteenth(bd: Band, z: seq<int>, k0: nat, k: nat) returns (kz: nat)
    requires |z| == 64 && k0 <= k <= 64 && Zeros(bd, z, k0, k) > 15
    ensures k0 <= kz < k && Mag(z[kz], bd.al) == 0 && Zeros(bd, z, k0, kz) == 15
    decreases k
  {
    if Mag(z[k - 1], bd.al) == 0 &&
    Zeros(bd, z, k0, k) == 16 { kz := k - 1; } else { kz := Sixteenth(bd, z, k0, k - 1); }
  }

  /** Behind the sixteenth zero there have been only zeros: no correction bit is buffered too late. */
  lemma {:induction false} OnlyZeros(bd: Band, z: seq<int>, k0: nat, kz: nat, k: nat)
    requires |z| == 64 && k0 <= kz < k <= 64 && Early(bd, z, k0, k) && Mag(z[kz], bd.al) == 0 &&
             Zeros(bd, z, k0, kz) == 15
    ensures Corrections(bd, z, k0, k) == Corrections(bd, z, k0, kz) && Corrections(bd, z, kz + 1, k) == []
    ensures Early(bd, z, kz + 1, k) && Zeros(bd, z, k0, k) == 16 + Zeros(bd, z, kz + 1, k)
    ensures NoneBecomes(bd, z, k0, k) ==> NoneBecomes(bd, z, k0, kz) && NoneBecomes(bd, z, kz + 1, k)
    decreases k
  {
    hide Shr, Mag, CorrectionBit;
    if k == kz + 1 {
    } else {
      assert Early(bd, z, k0, k - 1);
      OnlyZeros(bd, z, k0, kz, k - 1);
      ZerosSplit(bd, z, k0, kz, k - 1);
      assert Zeros(bd, z, k0, k - 1) > 15;
    }
  }

  /** Sixteen zeros, and the correction bits that belong behind their symbol. */
  lemma ZrlReads(hs: HuffTables, t: CTables, bd: Band, z: seq<int>, b0: Block, k0: nat, k: nat, st: Bits, p: nat,
      q: nat, b: Block)
    returns (k1: nat, b': Block)
    requires Matches(hs, t) && bd.Ok() && |z| == 64 && Halfway(bd, z, b0, k0, b) && bd.ss <= k0 <= k <= bd.se + 1
    requires NoneBecomes(bd, z, k0, k) && Early(bd, z, k0, k) && Zeros(bd, z, k0, k) > 15
    requires Sent(t, [Sym(AC, bd.tbl, 0xF0)] + Corrections(bd, z, k0, k), st, p, q)
    ensures k0 < k1 <= k && Halfway(bd, z, b0, k1, b') && NoneBecomes(bd, z, k1, k) && Early(bd, z, k1, k)
    ensures Corrections(bd, z, k1, k) == [] && Zeros(bd, z, k0, k) == 16 + Zeros(bd, z, k1, k)
    ensures ReadRefine(hs.Ac(bd.tbl), bd, st, p, k0, b) == ReadRefine(hs.Ac(bd.tbl), bd, st, q, k1, b')
  {
    hide SentFirst, SentOne, Sent, Halfway, Skip, Corrections, Shr, NoneBecomes, Early, Mag, ReadSymbol;
    var kz := Sixteenth(bd, z, k0, k);
    OnlyZeros(bd, z, k0, kz, k);
    k1 := kz + 1;
    var a := Sym(AC, bd.tbl, 0xF0);
    var m := FirstItem(t, a, Corrections(bd, z, k0, k), st, p, q);
    SymbolReads(hs, t, a, st, p, m);
    b' := SkipReads(t, bd, z, b0, k0, kz, 15, st, m, q, b);
    SkipStops(bd, z, b0, kz, st, q, b');
    RefineOn(hs.Ac(bd.tbl), bd, st, p, k0, b, 0xF0, m, Skipped(b', k1, q));
  }

  /** A zero stops the decoder when no zeros are left to skip. */
  lemma SkipStops(bd: Band, z: seq<int>, b0: Block, k: nat, st: Bits, p: nat, b: Block)
    requires Halfway(bd, z, b0, k, b) && bd.ss <= k <= bd.se && Mag(z[k], bd.al) <= 1
    ensures Skip(bd, st, p, k, 0, b) == Skipped(b, k, p)
    ensures Mag(z[k], bd.al) == 0 ==> Halfway(bd, z, b0, k + 1, b)
  {
    if Mag(z[k], bd.al) == 0 { PassZero(bd, z, b0, k, b); } else { MakeNew(bd, z, b0, k, b); }
  }

  /** One symbol that is no end of band. */
  lemma RefineOn(h: HuffTable, bd: Band, st: Bits, p: nat, k: nat, b: Block, sym: Byte, m: nat, s: Skipped)
    requires h.WellFormed() && bd.Ok() && k <= bd.se && p <= m && ReadSymbol(h, st, p) == (sym, m - p) &&
             (sym % 16 != 0 || sym / 16 == 15)
    requires s == Advanced(bd, st, m, k, sym / 16, sym % 16 != 0, b)
    ensures ReadRefine(h, bd, st, p, k, b) == ReadRefine(h, bd, st, s.pos, s.k, s.block)
  {
    hide ReadSymbol, Advanced;
  }

  /** A new coefficient, its sign, and the correction bits that belong behind them. */
  lemma NewReads(hs: HuffTables, t: CTables, bd: Band, z: seq<int>, b0: Block, k0: nat, k: nat, st: Bits, p: nat,
      q: nat, b: Block)
    returns (b': Block)
    requires Matches(hs, t) && bd.Ok() && |z| == 64 && Halfway(bd, z, b0, k0, b) && bd.ss <= k0 <= k <= bd.se
    requires NoneBecomes(bd, z, k0, k) && Zeros(bd, z, k0, k) <= 15 && Mag(z[k], bd.al) == 1
    requires Sent(t, NewCoef(bd.tbl, Zeros(bd, z, k0, k), z[k]) + Corrections(bd, z, k0, k), st, p, q)
    ensures Halfway(bd, z, b0, k + 1, b')
    ensures ReadRefine(hs.Ac(bd.tbl), bd, st, p, k0, b) == ReadRefine(hs.Ac(bd.tbl), bd, st, q, k + 1, b')
  {
    hide SentFirst, SentOne, Sent, Halfway, Skip, Corrections, Shr, Zeros, NoneBecomes, ReadSymbol, Mag, ReadRefine;
    var r := Zeros(bd, z, k0, k);
    var sign: nat := if z[k] < 0 then 0 else 1;
    var a, x := Sym(AC, bd.tbl, r * 16 + 1), Raw(sign, 1);
    assert NewCoef(bd.tbl, r, z[k]) + Corrections(bd, z, k0, k) == [a] + ([x] + Corrections(bd, z, k0, k));
    var m := FirstItem(t, a, [x] + Corrections(bd, z, k0, k), st, p, q);
    var m1 := FirstItem(t, x, Corrections(bd, z, k0, k), st, m, q);
    SymbolReads(hs, t, a, st, p, m);
    BitReads(t, sign, st, m, m1);
    SixteenSplit(r, 1);
    var b1 := SkipReads(t, bd, z, b0, k0, k, r, st, m1, q, b);
    SkipStops(bd, z, b0, k, st, q, b1);
    MakeNew(bd, z, b0, k, b1);
    b' := Stored(bd.o, b1, k, NewValue(bd, z[k] >= 0));
    RefineOn(hs.Ac(bd.tbl), bd, st, p, k0, b, r * 16 + 1, m, Skipped(b', k + 1, q));
  }

  lemma OneMoreZero(bd: Band, z: seq<int>, k0: nat, k: nat)
    requires |z| == 64 && k0 <= k < 64 && Mag(z[k], bd.al) == 0
    ensures Corrections(bd, z, k0, k + 1) == Corrections(bd, z, k0, k) &&
            Zeros(bd, z, k0, k + 1) == Zeros(bd, z, k0, k) + 1
  {
    assert Corrections(bd, z, k0, k) + [] == Corrections(bd, z, k0, k);
  }

  /** The items of a block: the decoder stands at rank `k0`, and the coder has since gone on to
      rank `k`, with zeros and correction bits pending. */
  lemma {:induction false} RefineReads(hs: HuffTables, t: CTables, bd: Band, z: seq<int>, b0: Block, eob: nat,
      k0: nat, k: nat, st: Bits, p: nat, q: nat, b: Block)
    returns (k1: nat, b': Block)
    requires Matches(hs, t) && bd.Ok() && |z| == 64 && Halfway(bd, z, b0, k0, b) && bd.ss <= k0 <= k <= bd.se + 1 &&
             eob <= bd.se
    requires NoneBecomes(bd, z, k0, k) && Early(bd, z, k0, k) && (if k <= eob then Mag(z[eob], bd.al) == 1 else k0 == k)
    requires Sent(t, RefineItems(bd, z, eob, k, Zeros(bd, z, k0, k), Corrections(bd, z, k0, k)), st, p, q)
    ensures k1 == (if k <= eob then eob + 1 else k) && Halfway(bd, z, b0, k1, b')
    ensures ReadRefine(hs.Ac(bd.tbl), bd, st, p, k0, b) == ReadRefine(hs.Ac(bd.tbl), bd, st, q, k1, b')
    decreases 64 - k, Zeros(bd, z, k0, k)
  {
    hide SentFirst, SentOne, Sent, Halfway, ReadRefine, Shr;
    var r, br := Zeros(bd, z, k0, k), Corrections(bd, z, k0, k);
    if k > eob {
      NoneSent(t, st, p, q);
      k1, b' := k, b;
    } else if Mag(z[k], bd.al) == 0 {
      OneMoreZero(bd, z, k0, k);
      k1, b' := RefineReads(hs, t, bd, z, b0, eob, k0, k + 1, st, p, q, b);
    } else if r > 15 {
      var m := SentSplit(t, [Sym(AC, bd.tbl, 0xF0)] + br, RefineItems(bd, z, eob, k, r - 16, []), st, p, q);
      var k2, b1 := ZrlReads(hs, t, bd, z, b0, k0, k, st, p, m, b);
      k1, b' := RefineReads(hs, t, bd, z, b0, eob, k2, k, st, m, q, b1);
    } else if Mag(z[k], bd.al) > 1 {
      k1, b' := RefineReads(hs, t, bd, z, b0, eob, k0, k + 1, st, p, q, b);
    } else {
      var m := SentSplit(t, NewCoef(bd.tbl, r, z[k]) + br, RefineItems(bd, z, eob, k + 1, 0, []), st, p, q);
      var b1 := NewReads(hs, t, bd, z, b0, k0, k, st, p, m, b);
      k1, b' := RefineReads(hs, t, bd, z, b0, eob, k + 1, k + 1, st, m, q, b1);
    }
  }

  // ---- first pass: a block's items

  /** In a band not sent before, a coefficient that shrinks to zero is already there. */
  ghost predicate Begun(bd: Band, z: seq<int>, b0: Block, k: nat, b: Block) {
    bd.Ok() && Short(z) && Holds(bd, z, b0, k, b) && Cleared(bd, b0)
  }

  lemma {:induction false} FirstZrls(hs: HuffTables, t: CTables, bd: Band, n: nat, st: Bits, p: nat, q: nat, k: nat,
      k2: nat, b: Block)
    requires Matches(hs, t) && bd.Ok() && Sent(t, Zrls(bd.tbl, n), st, p, q) && k2 == k + 16 * n <= bd.se
    ensures ReadFirst(hs.Ac(bd.tbl), bd, st, p, k, b) == ReadFirst(hs.Ac(bd.tbl), bd, st, q, k2, b)
    decreases n
  {
    hide SentFirst, SentOne, Sent, ReadSymbol, ReadFirst;
    if n == 0 {
      NoneSent(t, st, p, q);
    } else {
      var a := Sym(AC, bd.tbl, 0xF0);
      var m := FirstItem(t, a, Zrls(bd.tbl, n - 1), st, p, q);
      SymbolReads(hs, t, a, st, p, m);
      FirstOn(hs.Ac(bd.tbl), bd, st, p, k, b, 0xF0, m);
      FirstZrls(hs, t, bd, n - 1, st, m, q, k + 16, k2, b);
    }
  }

  lemma FirstOn(h: HuffTable, bd: Band, st: Bits, p: nat, k: nat, b: Block, sym: Byte, m: nat)
    requires h.WellFormed() && bd.Ok() && k <= bd.se && p <= m && ReadSymbol(h, st, p) == (sym, m - p)
    ensures sym == 0xF0 ==> ReadFirst(h, bd, st, p, k, b) == ReadFirst(h, bd, st, m, k + 16, b)
    ensures sym % 16 != 0 ==>
              ReadFirst(h, bd, st, p, k, b) ==
              ReadFirst(h, bd, st, m + sym % 16, k + sym / 16 + 1,
                  Stored(bd.o, b, k + sym / 16, Scaled(bd, ReadExtra(st, m, sym % 16))))
    ensures sym % 16 == 0 && sym / 16 != 15 ==>
              ReadFirst(h, bd, st, p, k, b) == BandRead(b, m + sym / 16, RunLength(st, m, sym / 16) - 1)
  {
    hide ReadSymbol, ReadExtra, Scaled, Stored, RunLength;
  }

  /** A coefficient of rank `k2` behind at most fifteen zeros. */
  lemma FirstCoef(hs: HuffTables, t: CTables, bd: Band, z: seq<int>, b0: Block, r: nat, st: Bits, p: nat, q: nat,
      k: nat, k2: nat, b: Block)
    returns (b': Block)
    requires Matches(hs, t) && bd.Ok() && |z| == 64 && Begun(bd, z, b0, k2, b) && r <= 15 && bd.ss <= k &&
             k + r == k2 <= bd.se
    requires Shrunk(z[k2], bd.al) != 0 && Sent(t, Coef(bd.tbl, r, Shrunk(z[k2], bd.al)), st, p, q)
    ensures Begun(bd, z, b0, k2 + 1, b')
    ensures ReadFirst(hs.Ac(bd.tbl), bd, st, p, k, b) == ReadFirst(hs.Ac(bd.tbl), bd, st, q, k2 + 1, b')
  {
    hide SentFirst, SentOne, Sent, ReadSymbol, ReadFirst, Shr, ToShort, Holds;
    var v := Shrunk(z[k2], bd.al);
    var n := Category(v);
    ShrunkShort(z[k2], bd.al);
    CategoryBound(v);
    var a, x := Sym(AC, bd.tbl, r * 16 + n), Raw(Extra(v), n);
    assert Coef(bd.tbl, r, v) == [a] + [x];
    var m := FirstItem(t, a, [x], st, p, q);
    SingleItem(t, x, st, m, q);
    SymbolReads(hs, t, a, st, p, m);
    RawReads(t, v, st, m, q);
    SixteenSplit(r, n);
    PointShort(z[k2], bd.al);
    b' := Stored(bd.o, b, k2, Point(z[k2], bd.al));
    HoldsMore(bd, z, b0, k2, b, Point(z[k2], bd.al));
    FirstOn(hs.Ac(bd.tbl), bd, st, p, k, b, r * 16 + n, m);
  }

  lemma RawReads(t: CTables, v: int, st: Bits, p: nat, q: nat)
    requires t.Valid() && v != 0 && SentOne(t, Raw(Extra(v), Category(v)), st, p, q)
    ensures q == p + Category(v) && ReadExtra(st, p, Category(v)) == v
  {
    ExtraReads(v, st, p);
  }

  /** The items of a block: the decoder stands `r` zeros behind rank `k`. */
  lemma {:induction false} FirstReads(hs: HuffTables, t: CTables, bd: Band, z: seq<int>, b0: Block, k: nat, r: nat,
      st: Bits, p: nat, q: nat, b: Block)
    returns (k1: nat, b': Block)
    requires Matches(hs, t) && bd.Ok() && |z| == 64 && Begun(bd, z, b0, k, b) && bd.ss <= k <= bd.se + 1 &&
             bd.ss + r <= k
    requires Sent(t, FirstItems(bd, z, k, r), st, p, q)
    ensures k1 == bd.se + 1 - FirstZeros(bd, z, k, r) && FirstZeros(bd, z, k, r) <= bd.se + 1 - bd.ss &&
            Begun(bd, z, b0, bd.se + 1, b')
    ensures ReadFirst(hs.Ac(bd.tbl), bd, st, p, k - r, b) == ReadFirst(hs.Ac(bd.tbl), bd, st, q, k1, b')
    decreases 64 - k
  {
    hide SentFirst, SentOne, Sent, ReadFirst, Shr, Begun, Shrunk, Zrls, Coef;
    if k > bd.se {
      NoneSent(t, st, p, q);
      k1, b' := k - r, b;
    } else {
      var v := Shrunk(z[k], bd.al);
      if v == 0 {
        FirstZero(bd, z, b0, k, b);
        k1, b' := FirstReads(hs, t, bd, z, b0, k + 1, r + 1, st, p, q, b);
      } else {
        var zs, co, rest := Zrls(bd.tbl, r / 16), Coef(bd.tbl, r % 16, v), FirstItems(bd, z, k + 1, 0);
        var m := SentSplit(t, zs + co, rest, st, p, q);
        var m0 := SentSplit(t, zs, co, st, p, m);
        FirstZrls(hs, t, bd, r / 16, st, p, m0, k - r, k - r % 16, b);
        var b1 := FirstCoef(hs, t, bd, z, b0, r % 16, st, m0, m, k - r % 16, k, b);
        k1, b' := FirstReads(hs, t, bd, z, b0, k + 1, 0, st, m, q, b1);
      }
    }
  }

  lemma FirstZero(bd: Band, z: seq<int>, b0: Block, k: nat, b: Block)
    requires |z| == 64 && Begun(bd, z, b0, k, b) && bd.ss <= k <= bd.se && Shrunk(z[k], bd.al) == 0
    ensures Begun(bd, z, b0, k + 1, b)
  {
    SameHolds(bd, z, b0, k, b);
  }
}
