/**
 * The sequential Huffman coder (jchuff.c): bits are merged into a word, whole bytes go to the
 * destination buffer, and an MCU that cannot be finished because the destination refuses to
 * empty its buffer leaves the coder where it was before that MCU.
 */
module HuffEncoder {
  import opened Bits
  import opened BitBuffer
  import opened ByteStuffing
  import opened Destination
  import opened EntropySpec
  import opened SequentialCoding
  import opened Zigzag

  /** working_state: local copies of the buffer position, the bit buffer and the DC values. */
  datatype Work = Work(dest: Dest, buf: seq<Byte>, free: nat, putBuffer: nat, putBits: nat, lastDc: seq<int>) {
    function Stream(): seq<Byte> { dest.written + buf }

    predicate Ok() {
      free > 0 && putBits < 8 && Holds(putBuffer, putBits)
    }

    function Pending(): Bits
      requires Ok()
    {
      Held(putBuffer, putBits)
    }
  }

  datatype Status = Done | Suspended | MissingCode

  /** How many bytes `w` is ahead of `w0`. */
  function Ahead(w0: Work, w: Work): int {
    |w.Stream()| - |w0.Stream()|
  }

  /** How things stand while an MCU is under way: the destination has answered as it does, and
      either its own view has not changed, or it has taken the buffer, with bytes of the
      unfinished MCU in it. */
  ghost predicate Progress(w0: Work, w: Work) {
    w0.free > 0 && w.dest.policy == w0.dest.policy && w0.Stream() <= w.Stream() &&
    Feed(w0.dest.policy, w0.dest.asked, w0.free, Ahead(w0, w)) == Fill(w.dest.asked, w.free) &&
    var d := Taken(w0.dest.policy, w0.dest.asked, w0.free, Ahead(w0, w));
    if d == 0 then w.dest == w0.dest.(asked := w.dest.asked)
    else w.dest.buf == [] && w.dest.free > 0 && |w.dest.written| == |w0.Stream()| + d
  }

  /** The destination has just refused a full buffer; of `bytes`, some have been sent since `w0`. */
  ghost predicate Stuck(w0: Work, w: Work, bytes: seq<Byte>) {
    Progress(w0, w) && w.free == 0 && w.Stream() <= w0.Stream() + bytes
  }

  /** `w` is `w0` after sending `bits`. */
  ghost predicate Emitted(w0: Work, w: Work, bits: Bits)
    requires w0.Ok()
  {
    w.Ok() && w.lastDc == w0.lastDc && Progress(w0, w) &&
    w.Stream() == w0.Stream() + Packed(w0.Pending() + bits) &&
    w.Pending() == Tail(w0.Pending() + bits)
  }

  lemma ProgressSelf(w: Work)
    requires w.free > 0
    ensures Progress(w, w)
  {
  }

  /** Bits not yet in the buffer, and DC values, do not matter. */
  lemma SameBuffer(w0: Work, w: Work, w': Work)
    requires Progress(w0, w) && w'.dest == w.dest && w'.buf == w.buf && w'.free == w.free
    ensures Progress(w0, w')
  {
    hide Feed, Taken;
  }

  lemma ProgressTrans(w0: Work, w1: Work, w2: Work)
    requires Progress(w0, w1) && w1.free > 0 && Progress(w1, w2)
    ensures Progress(w0, w2)
  {
    hide Feed, Taken;
    FeedMore(w0.dest.policy, w0.dest.asked, w0.free, Ahead(w0, w1), Ahead(w1, w2));
  }

  lemma StuckTrans(w0: Work, w1: Work, w2: Work, a: seq<Byte>, b: seq<Byte>)
    requires Progress(w0, w1) && w1.free > 0 && Stuck(w1, w2, a) && w1.Stream() + a <= w0.Stream() + b
    ensures Stuck(w0, w2, b)
  {
    hide Progress;
    ProgressTrans(w0, w1, w2);
  }

  /** More to send changes nothing about a coder that is stuck. */
  lemma StuckMore(w0: Work, w: Work, a: seq<Byte>, b: seq<Byte>)
    requires Stuck(w0, w, a) && a <= b
    ensures Stuck(w0, w, b)
  {
    hide Progress;
  }

  /** What was sent before the destination got stuck is there all the same. */
  lemma PackedGrows(pending: Bits, a: Bits, b: Bits)
    ensures Packed(pending + (a + b)) == Packed(pending + a) + Packed(Tail(pending + a) + b)
  {
    BitsAssoc(pending, a, b);
    PackMore(pending + a, b);
  }

  lemma EmittedTrans(w0: Work, w1: Work, w2: Work, a: Bits, b: Bits)
    requires w0.Ok() && Emitted(w0, w1, a) && Emitted(w1, w2, b)
    ensures Emitted(w0, w2, a + b)
  {
    ProgressTrans(w0, w1, w2);
    PackMore(w0.Pending() + a, b);
    BitsAssoc(w0.Pending(), a, b);
    StreamTrans(w0.Stream(), Packed(w0.Pending() + a), Packed(w1.Pending() + b));
  }

  lemma StreamTrans(a: seq<Byte>, b: seq<Byte>, c: seq<Byte>)
    ensures a + b + c == a + (b + c)
  {
  }

  lemma BitsAssoc(a: Bits, b: Bits, c: Bits)
    ensures a + b + c == a + (b + c)
  {
  }

  // ---- emit_byte, emit_bits, flush_bits

  method EmitByte(w: Work, v: Byte) returns (ok: bool, w': Work)
    requires w.free > 0
    ensures Progress(w, w') && w'.putBuffer == w.putBuffer && w'.putBits == w.putBits && w'.lastDc == w.lastDc
    ensures ok ==> w'.free > 0 && w'.Stream() == w.Stream() + [v]
    ensures !ok ==> Stuck(w, w', [v])
  {
    w' := w.(buf := w.buf + [v], free := w.free - 1);
    ok := true;
    if w'.free == 0 {
      var d := w'.dest;
      match d.policy(d.asked)
      case Refuse =>
        w' := w'.(dest := d.(asked := d.asked + 1));
        ok := false;
      case Accept(room) =>
        w' := w'.(dest := Dest(d.written + w'.buf, [], room, d.policy, d.asked + 1), buf := [], free := room);
        assert w'.Stream() == w.Stream() + [v];
    }
  }

  /** One data byte, with a zero stuffed after 0xFF. */
  method EmitData(w: Work, c: Byte) returns (ok: bool, w': Work)
    requires w.free > 0
    ensures Progress(w, w') && w'.lastDc == w.lastDc
    ensures ok ==> w'.free > 0 && w'.Stream() == w.Stream() + StuffedByte(c)
    ensures !ok ==> Stuck(w, w', StuffedByte(c))
  {
    hide Progress;
    ok, w' := EmitByte(w, c);
    if ok && c == 0xFF {
      var w1 := w';
      ok, w' := EmitByte(w1, 0);
      ProgressTrans(w, w1, w');
      if !ok { StuckTrans(w, w1, w', [0], [c, 0]); }
    }
  }

  method EmitBits(w: Work, code: int, size: nat) returns (st: Status, w': Work)
    requires w.Ok() && size <= 16
    ensures st == MissingCode <==> size == 0
    ensures st == Done ==> Emitted(w, w', ToBits(code, size))
    ensures st == Suspended ==> Stuck(w, w', Packed(w.Pending() + ToBits(code, size)))
  {
    hide Progress, Packed, Tail, StuffedByte, Holds, Held, Merge, DataByte, Shl;
    w' := w;
    if size == 0 { return MissingCode, w; }
    ProgressSelf(w);
    var putBits := w.putBits + size;
    var putBuffer := Merge(w.putBuffer, w.putBits, code, size);
    Append(w.putBuffer, w.putBits, code, size);
    ghost var all := w.Pending() + ToBits(code, size);
    ghost var goal := w.Stream() + Packed(all);
    while putBits >= 8
      invariant 0 <= putBits <= 24 && Holds(putBuffer, putBits) && w'.free > 0
      invariant w'.lastDc == w.lastDc && Progress(w, w')
      invariant w'.Stream() + Packed(Held(putBuffer, putBits)) == goal
      invariant Tail(Held(putBuffer, putBits)) == Tail(all)
    {
      var c := DataByte(putBuffer);
      ghost var held, w1 := Held(putBuffer, putBits), w';
      OneByteOut(putBuffer, putBits);
      var ok;
      ok, w' := EmitData(w', c);
      ProgressTrans(w, w1, w');
      if !ok {
        StuckTrans(w, w1, w', StuffedByte(c), Packed(all));
        return Suspended, w';
      }
      StreamTrans(w1.Stream(), StuffedByte(c), Packed(held[8..]));
      putBuffer := Shl(putBuffer, 8);
      putBits := putBits - 8;
    }
    NothingPacked(w'.Stream(), Held(putBuffer, putBits));
    ghost var w2 := w';
    w' := w'.(putBuffer := putBuffer, putBits := putBits);
    SameBuffer(w, w2, w');
    st := Done;
  }

  lemma NothingPacked(s: seq<Byte>, held: Bits)
    requires |held| < 8
    ensures s + Packed(held) == s && Tail(held) == held
  {
  }

  /** What one turn of emit_bits' loop does to the bits held. */
  lemma OneByteOut(word: nat, n: nat)
    requires Holds(word, n) && n >= 8
    ensures Packed(Held(word, n)) == StuffedByte(DataByte(word)) + Packed(Held(word, n)[8..])
    ensures Tail(Held(word, n)) == Tail(Held(word, n)[8..])
    ensures Holds(Shl(word, 8), n - 8) && Held(Shl(word, 8), n - 8) == Held(word, n)[8..]
  {
    ThirdByte(word, n);
    ShiftOut(word, n);
    FirstByte(Held(word, n), DataByte(word));
  }

  lemma FirstByte(held: Bits, c: Byte)
    requires |held| >= 8 && held[..8] == ToBits(c, 8)
    ensures Packed(held) == StuffedByte(c) + Packed(held[8..])
  {
    ByteOfBits(c);
  }

  lemma ByteOfBits(c: Byte)
    ensures Octet(ToBits(c, 8)) == c
  {
    hide ToBits, Pow2;
    ValueToBits(c, 8);
    Powers();
  }

  method FlushBits(w: Work) returns (ok: bool, w': Work)
    requires w.Ok()
    ensures Progress(w, w')
    ensures ok ==> w'.Ok() && w'.Pending() == [] && w'.lastDc == w.lastDc
    ensures ok ==> w'.Stream() == w.Stream() + Flushed(w.Pending())
    ensures !ok ==> Stuck(w, w', Flushed(w.Pending()))
  {
    hide Progress, Packed, Tail, Holds, Held, ToBits;
    var st;
    st, w' := EmitBits(w, 0x7F, 7);
    ok := st == Done;
    if ok {
      ghost var w1 := w';
      w' := w'.(putBuffer := 0, putBits := 0);
      SameBuffer(w, w1, w');
      EmptyHolds();
    }
  }

  lemma EmptyHolds()
    ensures Holds(0, 0) && Held(0, 0) == []
  {
    Multiple(0, Pow2(24));
  }

  // ---- encode_one_block

  /** `done` has been sent since `w0`, and all of it had codes. */
  ghost predicate SentItems(t: CTables, w0: Work, w: Work, done: seq<Item>)
    requires t.Valid() && w0.Ok()
  {
    ItemsOk(done) && AllSendable(t, done) && Emitted(w0, w, ItemsBits(t, done))
  }

  lemma SentNothing(t: CTables, w: Work)
    requires t.Valid() && w.Ok()
    ensures SentItems(t, w, w, [])
  {
    assert w.Pending() + [] == w.Pending();
    NothingPacked(w.Stream(), w.Pending());
  }

  /** Outcome of sending `items` from `w`. */
  ghost predicate Outcome(t: CTables, items: seq<Item>, w: Work, st: Status, w': Work)
    requires t.Valid() && w.Ok() && ItemsOk(items)
  {
    match st
    case Done => SentItems(t, w, w', items)
    case Suspended => Stuck(w, w', Packed(w.Pending() + ItemsBits(t, items)))
    case MissingCode => !AllSendable(t, items)
  }

  /** One item through emit_bits. */
  method EmitItem(t: CTables, it: Item, w: Work) returns (st: Status, w': Work)
    requires t.Valid() && ItemOk(it) && w.Ok()
    ensures Outcome(t, [it], w, st, w')
  {
    match it {
      case Sym(kind, tbl, sym) =>
        st, w' := EmitBits(w, t.Table(kind, tbl).ehufco[sym], t.Table(kind, tbl).ehufsi[sym]);
      case Raw(v, n) =>
        st, w' := EmitBits(w, v, n);
    }
    OneItemOutcome(t, it, w, st, w');
  }

  lemma OneItemOutcome(t: CTables, it: Item, w: Work, st: Status, w': Work)
    requires t.Valid() && w.Ok() && ItemOk(it) && (st == MissingCode ==> !Sendable(t, it))
    requires st == Done ==> Sendable(t, it) && Emitted(w, w', ItemBits(t, it))
    requires st == Suspended ==> Stuck(w, w', Packed(w.Pending() + ItemBits(t, it)))
    ensures Outcome(t, [it], w, st, w')
  {
    SingleItemBits(t, it);
    if st == MissingCode { assert !Sendable(t, [it][0]); }
  }

  lemma SingleItemBits(t: CTables, it: Item)
    requires t.Valid() && ItemOk(it)
    ensures ItemsBits(t, [it]) == ItemBits(t, it)
  {
    assert [it][1..] == [];
    assert ItemsBits(t, [it]) == ItemBits(t, it) + [] == ItemBits(t, it);
  }

  /** An outcome short of success holds for any longer list of items ... */
  lemma OutcomeStops(t: CTables, a: seq<Item>, b: seq<Item>, w: Work, st: Status, w': Work)
    requires t.Valid() && w.Ok() && ItemsOk(a) && ItemsOk(b) && st != Done && Outcome(t, a, w, st, w')
    ensures ItemsOk(a + b) && Outcome(t, a + b, w, st, w')
  {
    if st == Suspended {
      ItemsBitsAppend(t, a, b);
      PackedGrows(w.Pending(), ItemsBits(t, a), ItemsBits(t, b));
      StuckMore(w, w', Packed(w.Pending() + ItemsBits(t, a)), Packed(w.Pending() + ItemsBits(t, a + b)));
    } else {
      var i :| 0 <= i < |a| && !Sendable(t, a[i]);
      assert !Sendable(t, (a + b)[i]);
    }
  }

  /** ... and outcomes of consecutive lists join. */
  lemma OutcomeJoins(t: CTables, a: seq<Item>, b: seq<Item>, w: Work, w1: Work, st: Status, w': Work)
    requires t.Valid() && w.Ok() && ItemsOk(a) && ItemsOk(b) && SentItems(t, w, w1, a) && Outcome(t, b, w1, st, w')
    ensures ItemsOk(a + b) && Outcome(t, a + b, w, st, w')
  {
    ItemsBitsAppend(t, a, b);
    match st
    case Done =>
      EmittedTrans(w, w1, w', ItemsBits(t, a), ItemsBits(t, b));
    case Suspended =>
      PackedGrows(w.Pending(), ItemsBits(t, a), ItemsBits(t, b));
      StreamTrans(w.Stream(), Packed(w.Pending() + ItemsBits(t, a)), Packed(w1.Pending() + ItemsBits(t, b)));
      StuckTrans(w, w1, w', Packed(w1.Pending() + ItemsBits(t, b)), Packed(w.Pending() + ItemsBits(t, a + b)));
    case MissingCode =>
      var i :| 0 <= i < |b| && !Sendable(t, b[i]);
      assert !Sendable(t, (a + b)[|a| + i]);
  }

  method EncodeDc(t: CTables, tbl: nat, diff: int, w: Work) returns (st: Status, w': Work)
    requires t.Valid() && w.Ok() && ItemsOk(DcItems(tbl, diff))
    ensures Outcome(t, DcItems(tbl, diff), w, st, w')
  {
    var temp, temp2 := diff, diff;
    if temp < 0 {
      temp := -temp;
      temp2 := temp2 - 1;
    }
    var nbits := CountBits(temp, 0);
    ghost var items, sym, raw := DcItems(tbl, diff), Sym(DC, tbl, nbits), Raw(temp2, nbits);
    assert items[0] == sym && ItemOk(sym);
    st, w' := EmitItem(t, Sym(DC, tbl, nbits), w);
    if nbits == 0 {
      assert items == [sym];
    } else {
      assert items == [sym] + [raw] && items[1] == raw;
      if st != Done {
        OutcomeStops(t, [sym], [raw], w, st, w');
        return;
      }
      ghost var w1 := w';
      st, w' := EmitItem(t, Raw(temp2, nbits), w');
      OutcomeJoins(t, [sym], [raw], w, w1, st, w');
    }
  }

  /** Send the next item of a list, part of which is done. */
  method EmitNext(t: CTables, w0: Work, w: Work, ghost items: seq<Item>, ghost done: seq<Item>, it: Item,
      ghost rest: seq<Item>)
    returns (st: Status, w': Work)
    requires t.Valid() && w0.Ok() && ItemsOk(items) && items == done + ([it] + rest) && SentItems(t, w0, w, done)
    ensures items == done + [it] + rest
    ensures st == Done ==> SentItems(t, w0, w', done + [it])
    ensures st != Done ==> Outcome(t, items, w0, st, w')
  {
    hide Progress, AllSendable, ItemsBits, Stuck;
    assert items[|done|] == it;
    assert items == done + [it] + rest && items[|done| + 1..] == rest;
    st, w' := EmitItem(t, it, w);
    OutcomeJoins(t, done, [it], w0, w, st, w');
    if st != Done { OutcomeStops(t, done + [it], rest, w0, st, w'); }
  }

  method EncodeAc(t: CTables, tbl: nat, o: Order, block: Block, w: Work) returns (st: Status, w': Work)
    requires t.Valid() && w.Ok() && ItemsOk(AcItems(tbl, Ranked(o, block), 1, 0))
    ensures Outcome(t, AcItems(tbl, Ranked(o, block), 1, 0), w, st, w')
  {
    ghost var z := Ranked(o, block);
    ghost var items := AcItems(tbl, z, 1, 0);
    ghost var done: seq<Item> := [];
    SentNothing(t, w);
    st, w' := Done, w;
    var r := 0;
    for k := 1 to 64
      invariant r >= 0 && st == Done && SentItems(t, w, w', done)
      invariant items == done + AcItems(tbl, z, k, r)
    {
      var temp := block[o[k]];
      assert temp == z[k];
      if temp == 0 {
        r := r + 1;
      } else {
        ghost var rest := AcItems(tbl, z, k + 1, 0);
        Regroup(done, Zrls(tbl, r / 16), Coef(tbl, r % 16, temp), rest);
        st, r, w', done := EmitZrls(t, tbl, r, w, w', items, done, Coef(tbl, r % 16, temp) + rest);
        if st != Done { return; }
        st, w', done := EmitCoef(t, tbl, r, temp, w, w', items, done, rest);
        if st != Done { return; }
        r := 0;
      }
    }
    if r > 0 {
      assert [Sym(AC, tbl, 0)] + [] == [Sym(AC, tbl, 0)];
      st, w' := EmitNext(t, w, w', items, done, Sym(AC, tbl, 0), []);
      assert items == done + [Sym(AC, tbl, 0)];
    } else {
      assert items == done;
    }
  }

  /** Sixteen zeros at a time. */
  method EmitZrls(t: CTables, tbl: nat, r0: nat, w: Work, w0: Work, ghost items: seq<Item>, ghost done0: seq<Item>,
      ghost rest: seq<Item>)
    returns (st: Status, r: nat, w': Work, ghost done: seq<Item>)
    requires t.Valid() && w.Ok() && ItemsOk(items) && SentItems(t, w, w0, done0)
    requires items == done0 + (Zrls(tbl, r0 / 16) + rest)
    ensures st == Done ==> r == r0 % 16 && SentItems(t, w, w', done) && items == done + rest
    ensures st != Done ==> Outcome(t, items, w, st, w')
  {
    st, r, w', done := Done, r0, w0, done0;
    while r > 15
      invariant st == Done && r % 16 == r0 % 16 && SentItems(t, w, w', done)
      invariant items == done + (Zrls(tbl, r / 16) + rest)
    {
      ghost var more := Zrls(tbl, (r - 16) / 16) + rest;
      FirstZrl(tbl, r, rest);
      st, w' := EmitNext(t, w, w', items, done, Sym(AC, tbl, 0xF0), more);
      if st != Done { return; }
      done := done + [Sym(AC, tbl, 0xF0)];
      r := r - 16;
    }
    NoZrls(tbl, r, rest);
  }

  /** The run/size symbol of a coefficient, and its extra bits. */
  method EmitCoef(t: CTables, tbl: nat, r: nat, v: int, w: Work, w0: Work, ghost items: seq<Item>,
      ghost done0: seq<Item>, ghost rest: seq<Item>)
    returns (st: Status, w': Work, ghost done: seq<Item>)
    requires t.Valid() && w.Ok() && ItemsOk(items) && SentItems(t, w, w0, done0) && r <= 15 && v != 0
    requires items == done0 + (Coef(tbl, r, v) + rest)
    ensures st == Done ==> SentItems(t, w, w', done) && items == done + rest
    ensures st != Done ==> Outcome(t, items, w, st, w')
  {
    var temp, temp2 := v, v;
    if temp < 0 {
      temp := -temp;
      temp2 := temp2 - 1;
    }
    var nbits := CountBits(temp, 1);
    CoefIs(done0, tbl, r, v, rest, temp2, nbits);
    st, w' := EmitNext(t, w, w0, items, done0, Sym(AC, tbl, r * 16 + nbits), [Raw(temp2, nbits)] + rest);
    done := done0 + [Sym(AC, tbl, r * 16 + nbits)];
    if st != Done { return; }
    st, w' := EmitNext(t, w, w', items, done, Raw(temp2, nbits), rest);
    done := done + [Raw(temp2, nbits)];
  }

  lemma Regroup(a: seq<Item>, b: seq<Item>, c: seq<Item>, d: seq<Item>)
    ensures a + (b + c + d) == a + (b + (c + d))
  {
  }

  lemma CoefIs(done: seq<Item>, tbl: nat, r: nat, v: int, rest: seq<Item>, temp2: int, nbits: nat)
    requires temp2 == Extra(v) && nbits == Category(v)
    ensures done + (Coef(tbl, r, v) + rest) ==
            done + ([Sym(AC, tbl, r * 16 + nbits)] + ([Raw(temp2, nbits)] + rest))
  {
    assert Coef(tbl, r, v) + rest == [Sym(AC, tbl, r * 16 + nbits)] + ([Raw(temp2, nbits)] + rest);
  }

  /** encode_one_block. */
  method EncodeOneBlock(t: CTables, sc: Scan, c: nat, block: Block, lastDc: int, w: Work) returns (st: Status, w': Work)
    requires t.Valid() && sc.Valid() && c < |sc.dcTbl| && w.Ok() && Codable(block) && -32768 <= lastDc <= 32767
    ensures ItemsOk(BlockItems(sc.order, sc.dcTbl[c], sc.acTbl[c], block, lastDc))
    ensures Outcome(t, BlockItems(sc.order, sc.dcTbl[c], sc.acTbl[c], block, lastDc), w, st, w')
  {
    BlockItemsOk(sc.order, sc.dcTbl[c], sc.acTbl[c], block, lastDc);
    ghost var dcItems := DcItems(sc.dcTbl[c], block[0] - lastDc);
    ghost var acItems := AcItems(sc.acTbl[c], Ranked(sc.order, block), 1, 0);
    st, w' := EncodeDc(t, sc.dcTbl[c], block[0] - lastDc, w);
    if st != Done {
      OutcomeStops(t, dcItems, acItems, w, st, w');
      return;
    }
    ghost var w1 := w';
    st, w' := EncodeAc(t, sc.acTbl[c], sc.order, block, w');
    OutcomeJoins(t, dcItems, acItems, w, w1, st, w');
  }

  // ---- encode_mcu_huff

  /** A byte more, `sent` having been sent since `w0`. */
  method EmitMore(ghost w0: Work, w: Work, v: Byte, ghost sent: seq<Byte>) returns (ok: bool, w': Work)
    requires Progress(w0, w) && w.free > 0 && w.Stream() == w0.Stream() + sent
    ensures Progress(w0, w') && w'.putBuffer == w.putBuffer && w'.putBits == w.putBits && w'.lastDc == w.lastDc
    ensures ok ==> w'.free > 0 && w'.Stream() == w0.Stream() + (sent + [v])
    ensures !ok ==> Stuck(w0, w', sent + [v])
  {
    hide Progress;
    ok, w' := EmitByte(w, v);
    ProgressTrans(w0, w, w');
    StreamTrans(w0.Stream(), sent, [v]);
    if !ok { StuckTrans(w0, w, w', [v], sent + [v]); }
  }

  /** emit_restart. */
  method EmitRestart(sc: Scan, w: Work, restartNum: nat) returns (ok: bool, w': Work)
    requires w.Ok() && restartNum < 8
    ensures Progress(w, w')
    ensures ok ==> w'.Ok() && w'.Pending() == [] && w'.lastDc == Zeros(|sc.dcTbl|)
    ensures ok ==> w'.Stream() == w.Stream() + (Flushed(w.Pending()) + [0xFF, RST0 + restartNum])
    ensures !ok ==> Stuck(w, w', Flushed(w.Pending()) + [0xFF, RST0 + restartNum])
  {
    hide Progress, Stuck, Flushed, Holds, Held;
    ghost var f, rst := Flushed(w.Pending()), RST0 + restartNum;
    assert f + [0xFF] + [rst] == f + [0xFF, rst];
    ok, w' := FlushBits(w);
    if !ok {
      StuckMore(w, w', f, f + [0xFF, rst]);
      return;
    }
    ok, w' := EmitMore(w, w', 0xFF, f);
    if !ok {
      StuckMore(w, w', f + [0xFF], f + [0xFF, rst]);
      return;
    }
    ok, w' := EmitMore(w, w', RST0 + restartNum, f + [0xFF]);
    if !ok { return; }
    ghost var w3 := w';
    w' := w'.(lastDc := Zeros(|sc.dcTbl|));
    SameBuffer(w, w3, w');
  }

  /** `w` is a state of the coder inside an MCU: `done` sent since `w0`, DC values apart. */
  ghost predicate MidMcu(sc: Scan, t: CTables, w0: Work, w: Work, done: seq<Item>)
    requires t.Valid() && w0.Ok()
  {
    |w.lastDc| == |sc.dcTbl| && CodableDc(w.lastDc) && SentItems(t, w0.(lastDc := w.lastDc), w, done)
  }

  /** One block of an MCU and its DC prediction. */
  method EncodeBlockAt(sc: Scan, t: CTables, mcu: Mcu, blkn: nat, ghost w0: Work, w: Work, ghost done: seq<Item>)
    returns (st: Status, w': Work)
    requires sc.Valid() && t.Valid() && w0.Ok() && CodableMcu(sc, mcu) && blkn < |mcu| && MidMcu(sc, t, w0, w, done)
    ensures st == Done ==> w'.lastDc == w.lastDc[sc.membership[blkn] := mcu[blkn][0]]
    ensures var c := sc.membership[blkn];
            var block := BlockItems(sc.order, sc.dcTbl[c], sc.acTbl[c], mcu[blkn], w.lastDc[c]);
            ItemsOk(block) && if st == Done then MidMcu(sc, t, w0, w', done + block)
            else ItemsOk(done + block) && Outcome(t, done + block, w0, st, w')
  {
    hide Outcome, SentItems, BlockItems;
    var c := sc.membership[blkn];
    SentHere(t, w0.(lastDc := w.lastDc), w, done);
    st, w' := EncodeOneBlock(t, sc, c, mcu[blkn], w.lastDc[c], w);
    ghost var block := BlockItems(sc.order, sc.dcTbl[c], sc.acTbl[c], mcu[blkn], w.lastDc[c]);
    OutcomeJoins(t, done, block, w0.(lastDc := w.lastDc), w, st, w');
    OtherDc(t, done + block, w0.(lastDc := w.lastDc), st, w', w0.lastDc, w'.lastDc);
    if st == Done {
      ghost var w1, dc := w', w'.lastDc[c := mcu[blkn][0]];
      OtherDc(t, done + block, w0.(lastDc := w.lastDc), st, w1, dc, dc);
      w' := w'.(lastDc := w'.lastDc[c := mcu[blkn][0]]);
    }
  }

  lemma SentHere(t: CTables, w0: Work, w: Work, done: seq<Item>)
    requires t.Valid() && w0.Ok() && SentItems(t, w0, w, done)
    ensures w.Ok() && ItemsOk(done)
  {
  }

  /** DC values do not matter to what has been sent. */
  lemma OtherDc(t: CTables, items: seq<Item>, w0: Work, st: Status, w: Work, dc0: seq<int>, dc: seq<int>)
    requires t.Valid() && w0.Ok() && ItemsOk(items) && Outcome(t, items, w0, st, w)
    ensures st == Done ==> w.lastDc == w0.lastDc && SentItems(t, w0.(lastDc := dc), w.(lastDc := dc), items)
    ensures st != Done ==> Outcome(t, items, w0.(lastDc := dc0), st, w)
  {
    hide Feed, Taken, ItemsBits, AllSendable, Packed, Tail;
  }

  /** Blocks of one MCU, in order. */
  method EncodeBlocks(sc: Scan, t: CTables, mcu: Mcu, w: Work) returns (st: Status, w': Work)
    requires sc.Valid() && t.Valid() && w.Ok() && CodableMcu(sc, mcu) && |w.lastDc| == |sc.dcTbl| && CodableDc(w.lastDc)
    ensures st == Done ==>
              w'.lastDc == McuDc(sc, mcu, w.lastDc, 0) && MidMcu(sc, t, w, w', McuItems(sc, mcu, w.lastDc, 0))
    ensures ItemsOk(McuItems(sc, mcu, w.lastDc, 0)) &&
            (st != Done ==> Outcome(t, McuItems(sc, mcu, w.lastDc, 0), w, st, w'))
  {
    hide BlockItems, Outcome, ItemsBits, AllSendable;
    ghost var items := McuItems(sc, mcu, w.lastDc, 0);
    ghost var done: seq<Item> := [];
    SentNothing(t, w);
    st, w' := Done, w;
    for blkn := 0 to |mcu|
      invariant st == Done && MidMcu(sc, t, w, w', done)
      invariant McuDc(sc, mcu, w'.lastDc, blkn) == McuDc(sc, mcu, w.lastDc, 0)
      invariant items == done + McuItems(sc, mcu, w'.lastDc, blkn)
    {
      var c := sc.membership[blkn];
      ghost var block := BlockItems(sc.order, sc.dcTbl[c], sc.acTbl[c], mcu[blkn], w'.lastDc[c]);
      ghost var dc := w'.lastDc[c := mcu[blkn][0]];
      ghost var rest := McuItems(sc, mcu, dc, blkn + 1);
      ItemsAssoc(done, block, rest);
      st, w' := EncodeBlockAt(sc, t, mcu, blkn, w, w', done);
      if st != Done {
        McuItemsOk(sc, mcu, dc, blkn + 1);
        OutcomeStops(t, done + block, rest, w, st, w');
        return;
      }
      done := done + block;
    }
    assert items == done;
  }

  lemma ItemsAssoc(a: seq<Item>, b: seq<Item>, c: seq<Item>)
    ensures a + (b + c) == a + b + c
  {
  }

  /** The body of encode_mcu_huff on the working state: a restart if one is due, then the blocks. */
  method EncodeWork(sc: Scan, t: CTables, ghost s: CoderState, mcu: Mcu, due: bool, restartNum: nat, w: Work)
    returns (st: Status, w': Work)
    requires sc.Valid() && t.Valid() && w.Ok() && StateOk(sc, s) && CodableMcu(sc, mcu)
    requires s.pending == w.Pending() && s.lastDc == w.lastDc && s.nextRestart == restartNum && due == RestartDue(sc, s)
    ensures st == Done ==>
              w'.Ok() && w'.Stream() == w.Stream() + McuBytes(sc, t, s, mcu) && AllSendable(t, NextItems(sc, s, mcu)) &&
              NextState(sc, t, s, mcu) == Counted(sc, s.(pending := w'.Pending(), lastDc := w'.lastDc))
    ensures st == MissingCode ==> !AllSendable(t, NextItems(sc, s, mcu))
    ensures st == Done ==> Progress(w, w')
    ensures st == Suspended ==> Stuck(w, w', McuBytes(sc, t, s, mcu))
  {
    hide ItemsBits, Packed, Flushed, AllSendable, McuItems;
    w' := w;
    if due {
      var ok;
      ok, w' := EmitRestart(sc, w, restartNum);
      if !ok {
        StuckMore(w, w', RestartBytes(s), McuBytes(sc, t, s, mcu));
        return Suspended, w';
      }
    }
    ghost var w1 := w';
    ghost var rb := if due then RestartBytes(s) else [];
    assert w1.Stream() == w.Stream() + rb;
    assert w1.Pending() == AfterRestart(sc, s).pending && w1.lastDc == AfterRestart(sc, s).lastDc;
    st, w' := EncodeBlocks(sc, t, mcu, w');
    StreamTrans(w.Stream(), rb, Packed(w1.Pending() + ItemsBits(t, NextItems(sc, s, mcu))));
    if st == Suspended {
      StuckTrans(w, w1, w', Packed(w1.Pending() + ItemsBits(t, NextItems(sc, s, mcu))), McuBytes(sc, t, s, mcu));
    }
    if st == Done { ProgressTrans(w, w1, w'); }
  }

  /** The entropy coder object between MCUs. */
  class Encoder {
    const sc: Scan
    const t: CTables
    var dest: Dest
    var putBuffer: nat
    var putBits: nat
    var lastDc: seq<int>
    var restartsToGo: nat
    var nextRestartNum: nat

    ghost predicate Valid()
      reads this
    {
      sc.Valid() && t.Valid() && dest.free > 0 && putBits < 8 && Holds(putBuffer, putBits) && StateOk(sc, State())
    }

    ghost function State(): CoderState
      requires putBits < 8
      reads this
    {
      CoderState(Held(putBuffer, putBits), lastDc, restartsToGo, nextRestartNum)
    }

    /** All bytes handed to the destination and not taken back. */
    ghost function Stream(): seq<Byte>
      reads this
    {
      dest.Stream()
    }

    /** start_pass_huff, output mode. */
    constructor (sc: Scan, t: CTables, dest: Dest)
      requires sc.Valid() && t.Valid() && dest.free > 0
      ensures Valid() && this.sc == sc && this.t == t && this.dest == dest && State() == Start(sc)
    {
      this.sc, this.t, this.dest := sc, t, dest;
      putBuffer, putBits := 0, 0;
      lastDc := Zeros(|sc.dcTbl|);
      restartsToGo, nextRestartNum := sc.restartInterval, 0;
      EmptyHolds();
    }

    ghost function NextBytes(mcu: Mcu): seq<Byte>
      requires Valid() && CodableMcu(sc, mcu)
      reads this
    {
      McuBytes(sc, t, State(), mcu)
    }

    /** encode_mcu_huff: all of the MCU's bytes and the new state, or, when the destination
        refuses to empty its buffer, the old state. An MCU whose symbols have codes is suspended
        exactly when its bytes meet a refusal. The bytes of a suspended MCU that were in buffers
        the destination took are sent for good: none if and only if the first answer is a refusal. */
    method EncodeMcu(mcu: Mcu) returns (st: Status)
      requires Valid() && CodableMcu(sc, mcu)
      modifies this
      ensures Valid() && dest.policy == old(dest.policy)
      ensures st == Done ==>
                AllSendable(t, NextItems(sc, old(State()), mcu)) &&
                Stream() == old(Stream()) + old(NextBytes(mcu)) && State() == NextState(sc, t, old(State()), mcu) &&
                Fill(dest.asked, dest.free) == old(dest.After(|NextBytes(mcu)|))
      ensures st == MissingCode ==> !AllSendable(t, NextItems(sc, old(State()), mcu))
      ensures AllSendable(t, NextItems(sc, old(State()), mcu)) ==>
                (st == Suspended <==> old(dest.Refuses(|NextBytes(mcu)|)))
      ensures st == Suspended ==>
                State() == old(State()) && Fill(dest.asked, 0) == old(dest.After(|NextBytes(mcu)|)) &&
                Stream() == old(Stream()) + old(NextBytes(mcu)[..dest.Takes(|NextBytes(mcu)|)])
      ensures st == Suspended ==> (Stream() == old(Stream()) <==> old(dest.policy(dest.asked)).Refuse?)
    {
      hide McuBytes, NextItems, Feed, Held, ItemsBits, AllSendable;
      var w := Work(dest, dest.buf, dest.free, putBuffer, putBits, lastDc);
      ghost var w0 := w;
      st, w := EncodeWork(sc, t, State(), mcu, sc.restartInterval != 0 && restartsToGo == 0, nextRestartNum, w);
      if st != Done {
        if st == Suspended {
          dest := w.dest;
          StuckFed(w0, w, McuBytes(sc, t, old(State()), mcu));
          Backtracked(w0, w, McuBytes(sc, t, old(State()), mcu));
        }
        return;
      }
      dest := Dest(w.dest.written, w.buf, w.free, w.dest.policy, w.dest.asked);
      putBuffer, putBits, lastDc := w.putBuffer, w.putBits, w.lastDc;
      if sc.restartInterval != 0 {
        if restartsToGo == 0 {
          restartsToGo := sc.restartInterval;
          nextRestartNum := (nextRestartNum + 1) % 8;
        }
        restartsToGo := restartsToGo - 1;
      }
    }

    /** finish_pass_huff; a refusal here is an error exit. */
    method FinishPass() returns (ok: bool)
      requires Valid()
      modifies this
      ensures dest.policy == old(dest.policy)
      ensures ok ==> Valid() && Stream() == old(Stream()) + Flushed(old(State()).pending) && State().pending == []
      ensures ok <==> !old(dest.Refuses(|Flushed(State().pending)|))
    {
      hide Flushed;
      var w := Work(dest, dest.buf, dest.free, putBuffer, putBits, lastDc);
      ghost var w0, bytes := w, Flushed(State().pending);
      ok, w := FlushBits(w);
      if !ok { StuckFed(w0, w, bytes); }
      dest := Dest(w.dest.written, w.buf, w.free, w.dest.policy, w.dest.asked);
      if ok { putBuffer, putBits := w.putBuffer, w.putBits; }
    }
  }

  /** Once refused, the rest of the bytes makes no difference. */
  lemma StuckFed(w0: Work, w: Work, bytes: seq<Byte>)
    requires Stuck(w0, w, bytes)
    ensures Feed(w0.dest.policy, w0.dest.asked, w0.free, |bytes|) == Fill(w.dest.asked, 0)
    ensures Taken(w0.dest.policy, w0.dest.asked, w0.free, |bytes|) ==
            Taken(w0.dest.policy, w0.dest.asked, w0.free, Ahead(w0, w))
    ensures |bytes| >= w0.free
  {
    hide Feed, Taken;
    FeedMore(w0.dest.policy, w0.dest.asked, w0.free, Ahead(w0, w), |bytes| - Ahead(w0, w));
    FeedStops(w0.dest.policy, w0.dest.asked, w0.free, |bytes|);
  }

  /** After a refusal the destination shows the committed stream and what it took of the rest. */
  lemma Backtracked(w0: Work, w: Work, bytes: seq<Byte>)
    requires Stuck(w0, w, bytes) && w0.buf == w0.dest.buf && w0.free == w0.dest.free
    ensures w.dest.free > 0
    ensures w.dest.Stream() ==
            w0.dest.Stream() + bytes[..Taken(w0.dest.policy, w0.dest.asked, w0.free, |bytes|)]
  {
    hide Feed, Taken;
    StuckFed(w0, w, bytes);
    var d := Taken(w0.dest.policy, w0.dest.asked, w0.free, |bytes|);
    if d == 0 {
      assert w.dest.Stream() == w0.dest.Stream() + [];
    } else {
      TakenPrefix(w.dest.written, w.buf, w0.Stream(), bytes, d);
    }
  }

  lemma TakenPrefix(written: seq<Byte>, buf: seq<Byte>, before: seq<Byte>, bytes: seq<Byte>, d: nat)
    requires d <= |bytes| && |written| == |before| + d && written + buf <= before + bytes
    ensures written + [] == before + bytes[..d]
  {
    assert written == (written + buf)[..|before| + d] == (before + bytes)[..|before| + d];
  }
}
