/**
 * Progressive AC decoding (jdphuff.c): the first pass of a band and its refinement, on the bit
 * reader and the symbol decoder of the sequential decoder.
 */
module AcDecoder {
  import opened Bits
  import opened BitReader
  import opened DerivedTables
  import opened HuffmanCodes
  import opened HuffDecoder
  import opened AcBand
  import opened AcReading
  import opened Zigzag

  /** The loop has come to rank `k` and position `q`, or, with `k` beyond the band, to its end. */
  ghost predicate FirstAt(h: HuffTable, bd: Band, st: Bits, goal: BandRead, q: nat, k: nat, b: Block, eobrun: nat)
    requires h.WellFormed() && bd.Ok()
  {
    if k > bd.se then goal == BandRead(b, q, eobrun) else eobrun == 0 && goal == ReadFirst(h, bd, st, q, k, b)
  }

  /** decode_mcu_AC_first, one block. */
  method DecodeFirst(r: Reader, h: HuffTable, d: DTable, bd: Band, eobrun: nat, b: Block, ghost st: Bits, ghost p: nat)
    returns (ok: bool, b': Block, eobrun': nat, r': Reader)
    requires h.Valid() && DDerived(h, d) && bd.Ok() && At(r, st, p)
    ensures !ok ==>
              !r.Supplied() &&
              (SpareLast(bd.o) ==> FirstMcu(h, bd, st, p, eobrun, b') == FirstMcu(h, bd, st, p, eobrun, b))
    ensures ok ==> Refilled(r, r') && At(r', st, FirstMcu(h, bd, st, p, eobrun, b).pos)
    ensures ok ==> b' == FirstMcu(h, bd, st, p, eobrun, b).block && eobrun' == FirstMcu(h, bd, st, p, eobrun, b).eobrun
  {
    hide ReadFirst, DDerived;
    ok, b', eobrun', r' := true, b, eobrun, r;
    if eobrun' > 0 {
      eobrun' := eobrun' - 1;
      return;
    }
    var k: nat := bd.ss;
    ghost var q, goal := p, ReadFirst(h, bd, st, p, bd.ss, b);
    while k <= bd.se
      invariant Refilled(r, r') && At(r', st, q) && FirstAt(h, bd, st, goal, q, k, b', eobrun')
      invariant k <= bd.se && SpareLast(bd.o) ==> Mixed(b, b', goal.block)
      decreases 64 - k
    {
      ok, k, b', eobrun', r', q := FirstTurn(r', h, d, bd, k, b', st, q, goal, b);
      if !ok {
        if SpareLast(bd.o) { FirstAgain(h, bd, st, p, bd.ss, b, b'); }
        return;
      }
    }
  }

  /** One symbol of the first pass; rank 80 stands for leaving the loop. */
  method FirstTurn(r: Reader, h: HuffTable, d: DTable, bd: Band, k: nat, b: Block, ghost st: Bits, ghost p: nat,
      ghost goal: BandRead, ghost b0: Block)
    returns (ok: bool, k': nat, b': Block, eobrun: nat, r': Reader, ghost q: nat)
    requires h.Valid() && DDerived(h, d) && bd.Ok() && At(r, st, p) && k <= bd.se &&
             FirstAt(h, bd, st, goal, p, k, b, 0)
    requires SpareLast(bd.o) ==> Mixed(b0, b, goal.block)
    ensures if ok then Refilled(r, r') && At(r', st, q) && k' > k && FirstAt(h, bd, st, goal, q, k', b', eobrun)
            else !r.Supplied()
    ensures !ok || k' <= bd.se ==> SpareLast(bd.o) ==> Mixed(b0, b', goal.block)
  {
    hide DDerived, At, ReadSymbol, RunLength, ReadExtra, Stored, Scaled, Mixed, SpareLast, Reader.Terminated,
         Reader.Supplied, Reader.NextMarker, Reader.Beyond;
    k', b', eobrun, q := k, b, 0, p;
    var rs;
    ok, rs, r' := HuffDecode(r, h, d, st, p);
    if !ok { return; }
    ghost var q1 := p + ReadSymbol(h, st, p).1;
    q := q1 + rs % 16;
    if rs % 16 != 0 {
      var v;
      ok, v, r' := GetExtra(r', rs % 16, st, q1, q);
      if !ok { return; }
      b' := Stored(bd.o, b, k + rs / 16, Scaled(bd, v));
      k' := k + rs / 16 + 1;
      FirstOver(h, bd, st, q, k', b');
      if k' <= bd.se && SpareLast(bd.o) { StoredMixed(h, bd, st, q, k', b0, b, b', Scaled(bd, v)); }
    } else if rs / 16 == 15 {
      k' := k + 16;
      FirstOver(h, bd, st, q, k', b');
    } else {
      q := q1 + rs / 16;
      ok, eobrun, r' := GetRun(r', rs / 16, st, q1, q);
      if !ok { return; }
      eobrun := eobrun - 1;
      k' := 80;
    }
  }

  /** A coefficient stored is final as long as the band goes on. */
  lemma StoredMixed(h: HuffTable, bd: Band, st: Bits, q: nat, k: nat, b0: Block, b: Block, b': Block, v: int)
    requires h.WellFormed() && bd.Ok() && SpareLast(bd.o) && 0 < k <= bd.se && b' == Stored(bd.o, b, k - 1, v)
    requires Mixed(b0, b, ReadFirst(h, bd, st, q, k, b').block)
    ensures Mixed(b0, b', ReadFirst(h, bd, st, q, k, b').block)
  {
    hide ReadFirst;
    FirstSettled(h, bd, st, q, k, b');
  }

  /** EOBRUN from its symbol and appended bits. */
  method GetRun(r: Reader, n: nat, ghost st: Bits, ghost p: nat, ghost q: nat)
      returns (ok: bool, eobrun: nat, r': Reader)
    requires At(r, st, p) && n <= 15 && q == p + n
    ensures if ok then Refilled(r, r') && At(r', st, q) && eobrun == RunLength(st, p, n) else !r.Supplied()
  {
    ok, r' := true, r;
    eobrun := Pow2(n);
    if n != 0 {
      var more;
      ok, more, r' := GetBits(r, n, st, p);
      eobrun := eobrun + more;
    }
  }

  // ---- refinement

  /** One correction bit. */
  method Correct(r: Reader, bd: Band, k: nat, b: Block, ghost st: Bits, ghost p: nat)
      returns (ok: bool, b': Block, r': Reader)
    requires At(r, st, p) && k < 80 && b[bd.o[k]] != 0
    ensures if ok then Refilled(r, r') && At(r', st, p + 1) && b' == Corrected(bd, b, k, Bit(st, p))
            else !r.Supplied() && b' == b
  {
    hide Begins, Reader.Pending, Reader.Terminated, Reader.Supplied, Bit, HasBit, ToShort, Pow2;
    b' := b;
    var bit;
    ok, bit, r' := GetBits(r, 1, st, p);
    if ok && bit != 0 {
      var coef := b[bd.o[k]];
      if !HasBit(coef, bd.al) { b' := b[bd.o[k] := ToShort(if coef >= 0 then coef + Pow2(bd.al)
        else coef - Pow2(bd.al))]; }
    }
    assert ok ==> bit == (if Bit(st, p) then 1 else 0);
  }

  /** Only coefficients that were nonzero, or that are listed, have changed. */
  predicate NoneNew(b0: Block, b: Block, newnz: seq<nat>) {
    forall n: nat :: n < 64 && b0[n] == 0 && n !in newnz ==> b[n] == 0
  }

  /** `b` is `b0` with coefficients made nonzero at the places listed and others corrected; of these
      none is the band's last, and `f` has them too. */
  predicate Started(bd: Band, b0: Block, b: Block, newnz: seq<nat>, f: Block)
    requires bd.Ok()
  {
    forall n: nat :: n < 64 ==>
      if n in newnz then b0[n] == 0
      else b[n] == b0[n] || (b0[n] != 0 && b[n] != 0 && b[n] == f[n] && n != bd.o[bd.se])
  }

  /** A block under way to `f` that can be given up. */
  predicate Undoable(bd: Band, b0: Block, b: Block, newnz: seq<nat>, f: Block)
    requires bd.Ok()
  {
    NoneNew(b0, b, newnz) && (forall i :: 0 <= i < |newnz| ==> newnz[i] < 64) &&
    (SpareLast(bd.o) ==> Started(bd, b0, b, newnz, f))
  }

  lemma CorrectUndoable(bd: Band, k: nat, b0: Block, b: Block, bit: bool, newnz: seq<nat>, f: Block)
    requires bd.Ok() && k < bd.se && b[bd.o[k]] != 0 && Undoable(bd, b0, b, newnz, f)
    requires SpareLast(bd.o) ==> f[bd.o[k]] == Corrected(bd, b, k, bit)[bd.o[k]]
    ensures Undoable(bd, b0, Corrected(bd, b, k, bit), newnz, f)
  {
    hide Corrected, CorrectedValue, SpareLast;
    CorrectedTwice(bd.al, b[bd.o[k]], bit);
    forall n: nat | n < 64
      ensures Corrected(bd, b, k, bit)[n] == (if n == bd.o[k] then CorrectedValue(bd.al, b[n], bit) else b[n])
    {
      CorrectedAt(bd, b, k, bit, n);
    }
  }

  lemma StoreUndoable(bd: Band, k: nat, b0: Block, b: Block, v: int, newnz: seq<nat>, f: Block)
    requires bd.Ok() && k <= bd.se && b[bd.o[k]] == 0 && Undoable(bd, b0, b, newnz, f)
    ensures Undoable(bd, b0, Stored(bd.o, b, k, v), newnz + [bd.o[k]], f)
  {
    hide SpareLast;
  }

  /** Correcting rank `k` on the way to `t`, which is on the way to `f`. */
  lemma CorrectOnTheWay(bd: Band, k: nat, b0: Block, b: Block, bit: bool, newnz: seq<nat>, t: Block, m: nat, f: Block)
    requires bd.Ok() && k < m && k <= bd.se && b[bd.o[k]] != 0 && Undoable(bd, b0, b, newnz, f)
    requires Settled(bd, k + 1, Corrected(bd, b, k, bit), t) && (SpareLast(bd.o) ==> Settled(bd, m, t, f))
    ensures k < bd.se ==> Undoable(bd, b0, Corrected(bd, b, k, bit), newnz, f)
    ensures NoneNew(b0, Corrected(bd, b, k, bit), newnz)
  {
    hide Corrected, SpareLast, Started;
    if k < bd.se {
      CorrectUndoable(bd, k, b0, b, bit, newnz, f);
    } else {
      forall n: nat | n < 64
        ensures Corrected(bd, b, k, bit)[n] == (if n == bd.o[k] then CorrectedValue(bd.al, b[n], bit) else b[n])
      {
        CorrectedAt(bd, b, k, bit, n);
      }
    }
  }

  /** The do-while loop over nonzero coefficients and `n` zeros. */
  method SkipZeros(r: Reader, bd: Band, k0: nat, n: nat, b: Block, ghost st: Bits, ghost p: nat, ghost b0: Block,
      ghost newnz: seq<nat>, ghost f: Block)
    returns (ok: bool, k: nat, b': Block, r': Reader)
    requires bd.Ok() && k0 <= bd.se && At(r, st, p) && Undoable(bd, b0, b, newnz, f)
    requires var s := Skip(bd, st, p, k0, n, b); SpareLast(bd.o) ==> Settled(bd, s.k, s.block, f)
    ensures NoneNew(b0, b', newnz) && k <= bd.se + 1
    ensures !ok || k <= bd.se ==> Undoable(bd, b0, b', newnz, f)
    ensures if ok then Refilled(r, r') && Skip(bd, st, p, k0, n, b) == Skipped(b', k, Skip(bd, st, p, k0, n, b).pos)
            else !r.Supplied()
    ensures ok ==> At(r', st, Skip(bd, st, p, k0, n, b).pos)
  {
    hide Undoable, NoneNew, SpareLast, Settled, Skip, Begins, Reader.Pending, Reader.Terminated, Reader.Supplied;
    ok, k, b', r' := true, k0, b, r;
    var left: int := n;
    ghost var q, s := p, Skip(bd, st, p, k0, n, b);
    var going := true;
    UndoableNoneNew(bd, b0, b, newnz, f);
    while going
      invariant ok && k <= bd.se + 1 && Refilled(r, r') && At(r', st, q) && NoneNew(b0, b', newnz) && left >= -1
      invariant k <= bd.se ==> Undoable(bd, b0, b', newnz, f)
      invariant if going then k <= bd.se && left >= 0 && s == Skip(bd, st, q, k, left, b') else s == Skipped(b', k, q)
      decreases going, bd.se - k
    {
      if b'[bd.o[k]] != 0 {
        ok, b', r' := CorrectTurn(r', bd, k, b', st, q, b0, newnz, s, left, f);
        if !ok { return; }
        q := q + 1;
      } else {
        SkipTurn(bd, st, q, k, left, b');
        left := left - 1;
        if left < 0 {
          going := false;
        }
      }
      if going {
        k := k + 1;
        going := k <= bd.se;
        if !going { SkipOver(bd, st, q, k, left, b'); }
      }
    }
  }

  lemma SkipTurn(bd: Band, st: Bits, p: nat, k: nat, r: nat, b: Block)
    requires bd.Ok() && k <= bd.se && b[bd.o[k]] == 0
    ensures Skip(bd, st, p, k, r, b) == if r == 0 then Skipped(b, k, p) else Skip(bd, st, p, k + 1, r - 1, b)
  {
  }

  lemma SkipOver(bd: Band, st: Bits, p: nat, k: nat, r: nat, b: Block)
    requires bd.Ok() && k == bd.se + 1
    ensures Skip(bd, st, p, k, r, b) == Skipped(b, k, p)
  {
  }

  /** A nonzero coefficient corrected on the way to `s`. */
  method CorrectTurn(r: Reader, bd: Band, k: nat, b: Block, ghost st: Bits, ghost p: nat, ghost b0: Block,
      ghost newnz: seq<nat>, ghost s: Skipped, ghost left: nat, ghost f: Block)
    returns (ok: bool, b': Block, r': Reader)
    requires bd.Ok() && k <= bd.se && At(r, st, p) && b[bd.o[k]] != 0 && Undoable(bd, b0, b, newnz, f)
    requires s == Skip(bd, st, p, k, left, b) && (SpareLast(bd.o) ==> Settled(bd, s.k, s.block, f))
    ensures NoneNew(b0, b', newnz) && (!ok || k < bd.se ==> Undoable(bd, b0, b', newnz, f))
    ensures if ok then Refilled(r, r') && At(r', st, p + 1) && s == Skip(bd, st, p + 1, k + 1, left, b')
            else !r.Supplied()
  {
    hide Undoable, NoneNew, SpareLast, Settled, Corrected, Begins, Reader.Pending, Reader.Terminated, Reader.Supplied,
         Bit;
    ok, b', r' := Correct(r, bd, k, b, st, p);
    UndoableNoneNew(bd, b0, b, newnz, f);
    if ok {
      SkipSettled(bd, st, p + 1, k + 1, left, b');
      CorrectOnTheWay(bd, k, b0, b, Bit(st, p), newnz, s.block, s.k, f);
    }
  }

  lemma UndoableNoneNew(bd: Band, b0: Block, b: Block, newnz: seq<nat>, f: Block)
    requires bd.Ok() && Undoable(bd, b0, b, newnz, f)
    ensures NoneNew(b0, b, newnz)
  {
  }

  /** The loop over the rest of an ended band. */
  method FinishBand(r: Reader, bd: Band, k0: nat, b: Block, ghost st: Bits, ghost p: nat, ghost b0: Block,
      ghost newnz: seq<nat>)
    returns (ok: bool, b': Block, r': Reader)
    requires bd.Ok() && At(r, st, p)
    requires k0 <= bd.se ==> Undoable(bd, b0, b, newnz, Finish(bd, st, p, k0, b).block)
    ensures if ok then
              Refilled(r, r') && b' == Finish(bd, st, p, k0, b).block && At(r', st, Finish(bd, st, p, k0, b).pos)
            else !r.Supplied() && Undoable(bd, b0, b', newnz, Finish(bd, st, p, k0, b).block)
  {
    hide Undoable, NoneNew, SpareLast, Settled, Corrected, At, Refilled, Reader.Supplied;
    AtOk(r, st, p);
    ok, b', r' := true, b, r;
    ghost var q, f := p, Finish(bd, st, p, k0, b).block;
    var k := k0;
    while k <= bd.se
      invariant ok && Refilled(r, r') && At(r', st, q) && Finish(bd, st, p, k0, b) == Finish(bd, st, q, k, b')
      invariant k <= bd.se ==> Undoable(bd, b0, b', newnz, f)
    {
      if b'[bd.o[k]] != 0 {
        ghost var b1, bit, r1 := b', Bit(st, q), r';
        RefilledSupplied(r, r1);
        ok, b', r' := Correct(r', bd, k, b', st, q);
        if !ok { return; }
        RefilledTrans(r, r1, r');
        FinishSettled(bd, st, q + 1, k + 1, b');
        SettledItself(bd, k + 1, f);
        CorrectOnTheWay(bd, k, b0, b1, bit, newnz, f, k + 1, f);
        q := q + 1;
      }
      k := k + 1;
    }
  }

  lemma SettledItself(bd: Band, k: nat, b: Block)
    requires bd.Ok()
    ensures Settled(bd, k, b, b)
  {
  }

  /** undoit: zero the coefficients that became nonzero. */
  method UndoIt(bd: Band, b0: Block, b: Block, newnz: seq<nat>, ghost f: Block) returns (b': Block)
    requires bd.Ok() && Undoable(bd, b0, b, newnz, f)
    ensures NoneNew(b0, b', []) && (SpareLast(bd.o) ==> Ahead(bd, b0, b', f))
  {
    b' := b;
    var num: nat := |newnz|;
    assert newnz[..num] == newnz;
    while num > 0
      invariant num <= |newnz| && Undoable(bd, b0, b', newnz[..num], f)
    {
      num := num - 1;
      assert newnz[..num + 1] == newnz[..num] + [newnz[num]];
      UndoOne(bd, b0, b', newnz[..num], newnz[num], f);
      b' := b'[newnz[num] := 0];
    }
  }

  lemma UndoOne(bd: Band, b0: Block, b: Block, newnz: seq<nat>, n: nat, f: Block)
    requires bd.Ok() && n < 64 && Undoable(bd, b0, b, newnz + [n], f)
    ensures Undoable(bd, b0, b[n := 0], newnz, f)
  {
    hide SpareLast;
    assert n in newnz + [n];
    assert forall m :: m in newnz + [n] <==> m in newnz || m == n;
    assert forall i :: 0 <= i < |newnz| ==> (newnz + [n])[i] == newnz[i];
  }

  /** The loop has come to rank `k` and position `q`, or to an end-of-band symbol. */
  ghost predicate RefineAt(h: HuffTable, bd: Band, st: Bits, goal: RefineRead, q: nat, k: nat, b: Block, eobrun: nat)
    requires h.WellFormed() && bd.Ok()
  {
    if eobrun > 0 then goal == RefineRead(b, k, q, eobrun) else goal == ReadRefine(h, bd, st, q, k, b)
  }

  /** What is settled once a symbol's run is over. */
  lemma TurnSettled(h: HuffTable, bd: Band, st: Bits, p: nat, k: nat, n: nat, adds: bool, b: Block)
    requires h.WellFormed() && bd.Ok() && SpareLast(bd.o) && k <= bd.se
    ensures var s := Advanced(bd, st, p, k, n, adds, b);
            var t := Skip(bd, st, if adds then p + 1 else p, k, n, b);
            Settled(bd, t.k, t.block, EndRefine(bd, st, ReadRefine(h, bd, st, s.pos, s.k, s.block)).block)
  {
    hide ReadRefine, EndRefine;
    var s := Advanced(bd, st, p, k, n, adds, b);
    AdvancedSettled(bd, st, p, k, n, adds, b);
    RefineSettled(h, bd, st, s.pos, s.k, s.block);
  }

  /** One symbol of the refinement, and the coefficients it takes the decoder past. */
  method RefineTurn(r: Reader, h: HuffTable, d: DTable, bd: Band, k: nat, b: Block, newnz: seq<nat>, ghost st: Bits,
      ghost p: nat, ghost goal: RefineRead, ghost b0: Block)
    returns (ok: bool, k': nat, b': Block, newnz': seq<nat>, eobrun: nat, r': Reader, ghost q: nat)
    requires h.Valid() && DDerived(h, d) && bd.Ok() && At(r, st, p) && k <= bd.se &&
             RefineAt(h, bd, st, goal, p, k, b, 0)
    requires Undoable(bd, b0, b, newnz, EndRefine(bd, st, goal).block)
    ensures !ok || k' <= bd.se ==> Undoable(bd, b0, b', newnz', EndRefine(bd, st, goal).block)
    ensures if ok then
              Refilled(r, r') && At(r', st, q) && RefineAt(h, bd, st, goal, q, k', b', eobrun) &&
              (eobrun == 0 ==> k' > k)
            else !r.Supplied()
  {
    hide DDerived, At, ReadSymbol, RunLength, Skip, Undoable, Settled, Advanced, EndRefine, SpareLast;
    k', b', newnz', eobrun, q := k, b, newnz, 0, p;
    var rs;
    ok, rs, r' := HuffDecode(r, h, d, st, p);
    if !ok { return; }
    q := p + ReadSymbol(h, st, p).1;
    if rs % 16 == 0 && rs / 16 != 15 {
      ok, eobrun, r' := GetRun(r', rs / 16, st, q, q + rs / 16);
      q := q + rs / 16;
      return;
    }
    if SpareLast(bd.o) { TurnSettled(h, bd, st, q, k, rs / 16, rs % 16 != 0, b); }
    ok, k', b', newnz', r', q := Advance(r', bd, k, rs / 16, rs % 16 != 0, b, newnz, st, q, b0,
        EndRefine(bd, st, goal).block);
  }

  method Advance(r: Reader, bd: Band, k: nat, n: nat, adds: bool, b: Block, newnz: seq<nat>, ghost st: Bits,
      ghost p: nat, ghost b0: Block, ghost f: Block)
    returns (ok: bool, k': nat, b': Block, newnz': seq<nat>, r': Reader, ghost q: nat)
    requires bd.Ok() && At(r, st, p) && k <= bd.se && Undoable(bd, b0, b, newnz, f)
    requires var s := Skip(bd, st, if adds then p + 1 else p, k, n, b); SpareLast(bd.o) ==> Settled(bd, s.k, s.block, f)
    ensures !ok || k' <= bd.se ==> Undoable(bd, b0, b', newnz', f)
    ensures if ok then Refilled(r, r') && At(r', st, q) && Advanced(bd, st, p, k, n, adds, b) == Skipped(b', k', q)
            else !r.Supplied()
  {
    hide Undoable, Settled, Skip, At, SpareLast, Stored;
    k', b', newnz', r', q, ok := k, b, newnz, r, p, true;
    var positive := 0;
    if adds {
      ok, positive, r' := GetBits(r', 1, st, q);
      if !ok { return; }
      assert positive == (if Bit(st, p) then 1 else 0);
      q := q + 1;
    }
    ghost var s := Skip(bd, st, q, k, n, b);
    SkipStops(bd, st, q, k, n, b);
    ok, k', b', r' := SkipZeros(r', bd, k, n, b', st, q, b0, newnz, f);
    if !ok { return; }
    q := s.pos;
    if adds {
      ghost var b1 := b';
      b' := Stored(bd.o, b', k', NewValue(bd, positive != 0));
      newnz' := newnz + [bd.o[k']];
      if k' <= bd.se { StoreUndoable(bd, k', b0, b1, NewValue(bd, positive != 0), newnz, f); }
    }
    k' := k' + 1;
  }

  /** decode_mcu_AC_refine, one block. When it has to be given up, the coefficients that became
      nonzero are zero again; corrections made stay, but to decode what is left behind, from the
      same place, gives the same block as to decode the original. */
  method DecodeRefine(r: Reader, h: HuffTable, d: DTable, bd: Band, eobrun: nat, b: Block, ghost st: Bits, ghost p: nat)
    returns (ok: bool, b': Block, eobrun': nat, r': Reader)
    requires h.Valid() && DDerived(h, d) && bd.Ok() && At(r, st, p)
    ensures !ok ==>
              !r.Supplied() && NoneNew(b, b', []) &&
              (SpareLast(bd.o) ==> RefineMcu(h, bd, st, p, eobrun, b') == RefineMcu(h, bd, st, p, eobrun, b))
    ensures ok ==> Refilled(r, r') && At(r', st, RefineMcu(h, bd, st, p, eobrun, b).pos)
    ensures ok ==>
              b' == RefineMcu(h, bd, st, p, eobrun, b).block && eobrun' == RefineMcu(h, bd, st, p, eobrun, b).eobrun
  {
    hide DDerived, Undoable, ReadRefine, Ahead, Begins, Reader.Pending, SpareLast;
    ok, b', eobrun', r' := true, b, eobrun, r;
    var newnz: seq<nat> := [];
    var k: nat := bd.ss;
    ghost var q := p;
    ghost var goal := if eobrun == 0 then ReadRefine(h, bd, st, p, bd.ss, b) else RefineRead(b, bd.ss, p, eobrun);
    ghost var f := EndRefine(bd, st, goal).block;
    NothingToUndo(bd, b, f);
    if eobrun' == 0 {
      while eobrun' == 0 && k <= bd.se
        invariant ok && Refilled(r, r') && At(r', st, q)
        invariant k <= bd.se ==> Undoable(bd, b, b', newnz, f)
        invariant RefineAt(h, bd, st, goal, q, k, b', eobrun')
        decreases eobrun' == 0, 64 - k
      {
        ok, k, b', newnz, eobrun', r', q := RefineTurn(r', h, d, bd, k, b', newnz, st, q, goal, b);
        if !ok {
          b' := UndoIt(bd, b, b', newnz, f);
          if SpareLast(bd.o) { RefineAgain(h, bd, st, p, eobrun, b, b'); }
          return;
        }
      }
    }
    BandOver(h, bd, st, q, k, b');
    if eobrun' > 0 {
      ok, b', r' := FinishBand(r', bd, k, b', st, q, b, newnz);
      if !ok {
        b' := UndoIt(bd, b, b', newnz, f);
        if SpareLast(bd.o) { RefineAgain(h, bd, st, p, eobrun, b, b'); }
        return;
      }
      eobrun' := eobrun' - 1;
    }
  }

  lemma NothingToUndo(bd: Band, b: Block, f: Block)
    requires bd.Ok()
    ensures Undoable(bd, b, b, [], f)
  {
  }
}
