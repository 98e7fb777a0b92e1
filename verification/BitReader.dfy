/**
 * The decoder's bit source (jdhuff.h, jdhuff.c): bytes are unstuffed into a 32-bit word and
 * doled out from its low end; once a marker is met, zeros are supplied in place of data.
 */
module BitReader {
  import opened Bits
  import opened ByteStuffing

  const BIT_BUF_SIZE := 32
  const MIN_GET_BITS := BIT_BUF_SIZE - 7

  /** bitread_working_state with the two register variables of the macros. Of the data `src` the
      first `arrived` bytes have arrived so far; the reader looks at no others, but what it makes of
      these is stated for the whole. */
  datatype Reader = Reader(src: seq<Byte>, arrived: nat, pos: nat, unreadMarker: nat, getBuffer: int, bitsLeft: nat,
      printedEod: bool) {
    predicate Ok() {
      pos <= arrived <= |src| && bitsLeft <= BIT_BUF_SIZE && unreadMarker < 256
    }

    /** The reader without the data that have not arrived. */
    function Cut(): (r: Reader)
      requires Ok()
      ensures r.Ok() && (arrived == |src| ==> r == this)
    {
      assert arrived == |src| ==> src[..arrived] == src;
      this.(src := src[..arrived])
    }

    /** The marker has arrived, so the source does not run dry before it. */
    predicate Supplied()
      requires Ok()
    {
      unreadMarker != 0 || HasMarker(src[pos..arrived])
    }

    /** The bits the reader has yet to deliver. */
    function Pending(): Bits
      requires Ok()
    {
      ToBits(getBuffer, bitsLeft) + Upcoming()
    }

    /** Data bits not yet in the buffer; none lie beyond a marker. */
    function Upcoming(): Bits
      requires Ok()
    {
      if unreadMarker != 0 then [] else DataBits(src[pos..])
    }

    /** The data end in a marker. */
    predicate Terminated()
      requires Ok()
    {
      unreadMarker != 0 || HasMarker(src[pos..])
    }

    /** The bytes beyond the marker that have arrived. */
    function Behind(): seq<Byte>
      requires Ok() && Supplied()
    {
      if unreadMarker != 0 then src[pos..arrived] else AfterMarker(src[pos..arrived])
    }

    /** The marker that ends the data, found already or not ... */
    function NextMarker(): nat
      requires Ok() && Terminated()
    {
      if unreadMarker != 0 then unreadMarker else MarkerCode(src[pos..])
    }

    /** ... and the bytes beyond it. */
    function Beyond(): seq<Byte>
      requires Ok() && Terminated()
    {
      if unreadMarker != 0 then src[pos..] else AfterMarker(src[pos..])
    }
  }

  /** A 32-bit register value, as a signed number. */
  function Wrap32(v: int): int {
    var m := v % 0x1_0000_0000;
    if m < 0x8000_0000 then m else m - 0x1_0000_0000
  }

  /** The bits `b` are those of stream `s` at position `p`; if they are all there is, what lies past
      their end reads as zeros. */
  ghost predicate Begins(b: Bits, ended: bool, s: Bits, p: nat) {
    forall i: nat :: i < |b| || ended ==> Bit(b, i) == Bit(s, p + i)
  }

  /** The reader stands at position `p` of stream `s`, of which its data are, unless they end in a
      marker, only a part. */
  ghost predicate At(r: Reader, s: Bits, p: nat) {
    r.Ok() && Begins(r.Pending(), r.Terminated(), s, p)
  }

  /** The reader differs from an earlier one only in what it has fetched. */
  predicate Refilled(r: Reader, r': Reader) {
    EndsAs(r, r') && r'.Supplied() == r.Supplied() && (r.Supplied() ==> r'.Behind() == r.Behind())
  }

  /** The data end in the same way. */
  predicate EndsAs(r: Reader, r': Reader) {
    r.Ok() && r'.Ok() && r'.src == r.src && r'.arrived == r.arrived && r'.Terminated() == r.Terminated() &&
    (r.Terminated() ==> r'.NextMarker() == r.NextMarker() && r'.Beyond() == r.Beyond())
  }

  // ---- jpeg_fill_bit_buffer

  lemma Wrap32Bits(v: int, n: nat)
    requires n <= 32
    ensures ToBits(Wrap32(v), n) == ToBits(v, n)
  {
    var q := if v % 0x1_0000_0000 < 0x8000_0000 then -(v / 0x1_0000_0000) else -(v / 0x1_0000_0000) - 1;
    assert Wrap32(v) == v + q * 0x1_0000_0000;
    WholeWords(v, q, n);
  }

  lemma WholeWords(v: int, q: int, n: nat)
    requires n <= 32
    ensures ToBits(v + q * 0x1_0000_0000, n) == ToBits(v, n)
  {
    Powers();
    Pow2Add(32 - n, n);
    MulAssoc(q, Pow2(32 - n), Pow2(n));
    ToBitsModulo(v, q * Pow2(32 - n), n);
  }

  /** A byte shifted in at the low end follows the bits already there. */
  lemma ShiftIn(buffer: int, n: nat, c: Byte)
    requires n + 8 <= 32
    ensures ToBits(Wrap32(buffer * 0x100 + c), n + 8) == ToBits(buffer, n) + ToBits(c, 8)
  {
    hide ToBits, Pow2, Wrap32;
    Wrap32Bits(buffer * 0x100 + c, n + 8);
    LowByte(buffer, n, c, 8);
  }

  lemma LowByte(buffer: int, n: nat, c: Byte, eight: nat)
    requires eight == 8
    ensures ToBits(buffer * 0x100 + c, n + eight) == ToBits(buffer, n) + ToBits(c, eight)
  {
    var d := Pow2(eight);
    assert d == 0x100 by { Powers(); }
    Split(buffer * d + c, n, eight);
    DivUnique(buffer * d + c, d, buffer, c);
    ToBitsModulo(c, buffer, eight);
  }

  /** A reader differs in nothing from itself ... */
  lemma AtOk(r: Reader, s: Bits, p: nat)
    requires At(r, s, p)
    ensures r.Ok() && Refilled(r, r)
  {
  }

  /** ... and a refilled one runs dry when it would have. */
  lemma RefilledSupplied(r: Reader, r': Reader)
    requires Refilled(r, r')
    ensures r.Ok() && r'.Ok() && r'.Supplied() == r.Supplied()
  {
  }

  lemma RefilledTrans(r: Reader, r1: Reader, r2: Reader)
    requires Refilled(r, r1) && Refilled(r1, r2)
    ensures Refilled(r, r2)
  {
  }

  /** The fill bytes from `start` on reach up to `pos` at least. */
  predicate FillTo(s: seq<Byte>, start: nat, pos: nat) {
    start <= pos <= |s| && SkipFill(s[start..]) == pos - start + SkipFill(s[pos..])
  }

  lemma FillBegins(s: seq<Byte>, start: nat)
    requires start <= |s|
    ensures FillTo(s, start, start)
  {
  }

  lemma FillEnds(s: seq<Byte>, start: nat)
    requires FillTo(s, start, |s|)
    ensures SkipFill(s[start..]) == |s| - start
  {
  }

  lemma FillOn(s: seq<Byte>, start: nat, pos: nat)
    requires FillTo(s, start, pos) && pos < |s|
    ensures if s[pos] == 0xFF then FillTo(s, start, pos + 1) else SkipFill(s[start..]) == pos - start
  {
    assert s[pos..][1..] == s[pos + 1..];
  }

  /** Read on past fill bytes: the first byte after them, and the position behind it. */
  method PastFill(src: seq<Byte>, arrived: nat, start: nat) returns (ok: bool, c: Byte, pos: nat)
    requires start < arrived <= |src| && src[start] == 0xFF
    ensures ok ==>
              start < pos - 1 < arrived && SkipFill(src[start..]) == pos - 1 - start && c == src[pos - 1] != 0xFF
    ensures !ok ==> SkipFill(src[..arrived][start..]) == arrived - start
  {
    hide FillTo;
    ghost var given := src[..arrived];
    FillBegins(src, start);
    FillBegins(given, start);
    FillOn(src, start, start);
    FillOn(given, start, start);
    pos, c := start + 1, 0xFF;
    while true
      invariant start < pos <= arrived && FillTo(src, start, pos) && FillTo(given, start, pos)
      decreases arrived - pos
    {
      if pos == arrived {
        FillEnds(given, start);
        return false, c, pos;
      }
      FillOn(src, start, pos);
      FillOn(given, start, pos);
      c := src[pos];
      pos := pos + 1;
      if c != 0xFF { return true, c, pos; }
    }
  }

  /** The byte loop of jpeg_fill_bit_buffer: fetch one data byte or discover a marker. */
  method FetchByte(r: Reader) returns (ok: bool, c: nat, r': Reader)
    requires r.Ok() && r.unreadMarker == 0
    ensures ok ==>
              Refilled(r, r') && r'.getBuffer == r.getBuffer && r'.bitsLeft == r.bitsLeft &&
              r'.printedEod == r.printedEod
    ensures ok && r'.unreadMarker == 0 ==> c < 256 && r.Upcoming() == ToBits(c, 8) + r'.Upcoming()
    ensures ok && r'.unreadMarker != 0 ==> r.Upcoming() == []
    ensures !ok ==> !r.Supplied()
  {
    hide ToBits, EndsAs, Reader.Upcoming, Reader.Terminated, Reader.Supplied, Reader.Behind, SkipFill;
    c, r' := 0, r;
    ghost var given := r.Cut();
    SuppliedCut(r);
    if r.pos == r.arrived {
      NothingFetched(given);
      return false, c, r';
    }
    c := r.src[r.pos];
    if c != 0xFF {
      PlainFetched(r);
      PlainFetched(given);
      r' := r.(pos := r.pos + 1);
      EndsAlike(r, r');
      return true, c, r';
    }
    var pos;
    ok, c, pos := PastFill(r.src, r.arrived, r.pos);
    if !ok {
      FillFetched(given);
      return;
    }
    FillCut(r, pos);
    if c == 0 {
      StuffedFetched(r, pos);
      StuffedFetched(given, pos);
      c, r' := 0xFF, r.(pos := pos);
    } else {
      MarkerFetched(r, pos);
      MarkerFetched(given, pos);
      r' := r.(pos := pos, unreadMarker := c);
    }
    EndsAlike(r, r');
  }

  lemma SuppliedCut(r: Reader)
    requires r.Ok()
    ensures r.Supplied() == r.Cut().Terminated() && (r.Supplied() ==> r.Behind() == r.Cut().Beyond())
  {
    assert r.src[..r.arrived][r.pos..] == r.src[r.pos..r.arrived];
  }

  /** When all the data have arrived. */
  lemma AllArrived(r: Reader)
    requires r.Ok() && r.arrived == |r.src|
    ensures r.Supplied() == r.Terminated() && (r.Supplied() ==> r.Behind() == r.Beyond())
  {
    assert r.src[r.pos..r.arrived] == r.src[r.pos..];
  }

  lemma EndsAlike(r: Reader, r': Reader)
    requires EndsAs(r, r') && EndsAs(r.Cut(), r'.Cut())
    ensures Refilled(r, r')
  {
    SuppliedCut(r);
    SuppliedCut(r');
  }

  /** Fill bytes that are followed by another byte do not depend on what comes behind it. */
  lemma FillCut(r: Reader, pos: nat)
    requires r.Ok() && r.pos < pos - 1 < r.arrived && SkipFill(r.src[r.pos..]) == pos - 1 - r.pos
    ensures SkipFill(r.src[..r.arrived][r.pos..]) == pos - 1 - r.pos
  {
    var rest := r.src[r.pos..];
    SkipFillCut(rest, r.arrived - r.pos);
    assert r.src[..r.arrived][r.pos..] == rest[..r.arrived - r.pos];
  }

  lemma {:induction false} SkipFillCut(s: seq<Byte>, n: nat)
    requires SkipFill(s) < n <= |s|
    ensures SkipFill(s[..n]) == SkipFill(s)
  {
    if s[0] == 0xFF {
      SkipFillCut(s[1..], n - 1);
      assert s[..n][1..] == s[1..][..n - 1];
    }
  }

  lemma NothingFetched(r: Reader)
    requires r.Ok() && r.unreadMarker == 0 && r.pos == |r.src|
    ensures !r.Terminated()
  {
    assert r.src[r.pos..] == [];
  }

  lemma PlainFetched(r: Reader)
    requires r.Ok() && r.unreadMarker == 0 && r.pos < r.arrived && r.src[r.pos] != 0xFF
    ensures var r' := r.(pos := r.pos + 1); EndsAs(r, r') && r.Upcoming() == ToBits(r.src[r.pos], 8) + r'.Upcoming()
  {
    hide ToBits, DataBits, HasMarker, MarkerCode, AfterMarker;
    var rest := r.src[r.pos..];
    assert rest[1..] == r.src[r.pos + 1..];
    FirstByte(rest);
  }

  lemma FillFetched(r: Reader)
    requires r.Ok() && r.unreadMarker == 0 && r.pos < |r.src| && r.src[r.pos] == 0xFF &&
             SkipFill(r.src[r.pos..]) == |r.src| - r.pos
    ensures !r.Terminated()
  {
    hide ToBits, DataBits, HasMarker, MarkerCode, AfterMarker, SkipFill;
    FirstFill(r.src[r.pos..]);
  }

  lemma StuffedFetched(r: Reader, pos: nat)
    requires r.Ok() && r.unreadMarker == 0 && r.pos < pos - 1 < r.arrived && r.src[r.pos] == 0xFF && r.src[pos - 1] == 0
    requires SkipFill(r.src[r.pos..]) == pos - 1 - r.pos
    ensures var r' := r.(pos := pos); EndsAs(r, r') && r.Upcoming() == ToBits(0xFF, 8) + r'.Upcoming()
  {
    hide ToBits, DataBits, HasMarker, MarkerCode, AfterMarker, SkipFill;
    var rest := r.src[r.pos..];
    var z := pos - 1 - r.pos;
    assert rest[z] == 0 && rest[z + 1..] == r.src[pos..];
    FirstStuffed(rest, z);
    StuffedMarker(rest, z);
  }

  lemma MarkerFetched(r: Reader, pos: nat)
    requires r.Ok() && r.unreadMarker == 0 && r.pos < pos - 1 < r.arrived && r.src[r.pos] == 0xFF && r.src[pos - 1] != 0
    requires SkipFill(r.src[r.pos..]) == pos - 1 - r.pos
    ensures EndsAs(r, r.(pos := pos, unreadMarker := r.src[pos - 1])) && r.Upcoming() == []
  {
    hide ToBits, DataBits, HasMarker, MarkerCode, AfterMarker, SkipFill;
    var rest := r.src[r.pos..];
    var z := pos - 1 - r.pos;
    assert rest[z] == r.src[pos - 1] && rest[z + 1..] == r.src[pos..];
    FirstMarker(rest, z);
  }

  /** What the first byte of a stream makes of its data and its marker. */
  lemma FirstByte(s: seq<Byte>)
    requires s != [] && s[0] != 0xFF
    ensures DataBits(s) == ToBits(s[0], 8) + DataBits(s[1..]) && HasMarker(s) == HasMarker(s[1..])
    ensures HasMarker(s) ==> MarkerCode(s) == MarkerCode(s[1..]) && AfterMarker(s) == AfterMarker(s[1..])
  {
    hide ToBits, SkipFill;
  }

  /** The same for a first byte of 0xFF, `z` being the first other byte: fill without an end, ... */
  lemma FirstFill(s: seq<Byte>)
    requires s != [] && s[0] == 0xFF && SkipFill(s) == |s|
    ensures !HasMarker(s)
  {
    hide SkipFill;
  }

  /** ... a marker, ... */
  lemma FirstMarker(s: seq<Byte>, z: nat)
    requires s != [] && s[0] == 0xFF && z == SkipFill(s) < |s| && s[z] != 0
    ensures DataBits(s) == [] && HasMarker(s) && MarkerCode(s) == s[z] && AfterMarker(s) == s[z + 1..]
  {
    hide ToBits, SkipFill;
  }

  /** ... or a stuffed byte. */
  lemma FirstStuffed(s: seq<Byte>, z: nat)
    requires s != [] && s[0] == 0xFF && z == SkipFill(s) < |s| && s[z] == 0
    ensures DataBits(s) == ToBits(0xFF, 8) + DataBits(s[z + 1..])
  {
    hide ToBits, SkipFill;
  }

  lemma StuffedMarker(s: seq<Byte>, z: nat)
    requires s != [] && s[0] == 0xFF && z == SkipFill(s) < |s| && s[z] == 0
    ensures HasMarker(s) == HasMarker(s[z + 1..])
    ensures HasMarker(s) ==> MarkerCode(s) == MarkerCode(s[z + 1..]) && AfterMarker(s) == AfterMarker(s[z + 1..])
  {
    hide SkipFill, DataBits;
  }

  /** The same bits are pending; zeros may have been added beyond a marker. */
  ghost predicate SamePending(r: Reader, r': Reader)
    requires r.Ok() && r'.Ok()
  {
    (forall i: nat :: Bit(r'.Pending(), i) == Bit(r.Pending(), i)) &&
    (!r.Terminated() ==> |r'.Pending()| == |r.Pending()|)
  }

  lemma StillAt(r: Reader, r': Reader, s: Bits, p: nat)
    requires At(r, s, p) && Refilled(r, r') && SamePending(r, r')
    ensures At(r', s, p)
  {
    hide Reader.Pending, Reader.Terminated, Bit;
    forall i: nat | i < |r'.Pending()| || r'.Terminated()
      ensures Bit(r'.Pending(), i) == Bit(s, p + i)
    {
      assert i < |r.Pending()| || r.Terminated();
    }
  }

  /** jpeg_fill_bit_buffer. Zeros are added exactly if the data end in a marker before `nbits` bits, which is
      then reported. */
  method FillBitBuffer(r: Reader, nbits: nat) returns (ok: bool, r': Reader)
    requires r.Ok() && nbits <= MIN_GET_BITS
    ensures ok ==> Refilled(r, r') && r'.bitsLeft >= nbits
    ensures ok ==> SamePending(r, r') && (r.Terminated() && |r.Pending()| < nbits ==> r'.printedEod)
    ensures ok && !(r.Terminated() && |r.Pending()| < nbits) ==>
              r'.Pending() == r.Pending() && r'.printedEod == r.printedEod
    ensures ok && r'.bitsLeft < MIN_GET_BITS ==> r'.unreadMarker != 0
    ensures !ok ==> !r.Supplied()
  {
    hide DataBits, HasMarker, MarkerCode, AfterMarker, ToBits, Wrap32, Bit;
    r' := r;
    ok := true;
    while r'.bitsLeft < MIN_GET_BITS
      invariant Refilled(r, r') && SamePending(r, r')
      invariant (r'.Pending() == r.Pending() && r'.printedEod == r.printedEod) ||
                (r.Terminated() && |r.Pending()| < nbits && r'.printedEod && r'.unreadMarker != 0)
      decreases MIN_GET_BITS - r'.bitsLeft
    {
      var c := 0;
      ghost var before := r';
      if r'.unreadMarker == 0 {
        ok, c, r' := FetchByte(r');
        if !ok { return; }
      }
      if r'.unreadMarker != 0 {
        assert before.Pending() == r'.Pending();
        if r'.bitsLeft >= nbits { break; }
        r' := r'.(printedEod := true);
        c := 0;
        ZeroByte(r'.Pending());
      }
      ShiftIn(r'.getBuffer, r'.bitsLeft, c);
      LoadByte(before, r', c);
      r' := r'.(getBuffer := Wrap32(r'.getBuffer * 0x100 + c), bitsLeft := r'.bitsLeft + 8);
    }
  }

  lemma ZeroByte(b: Bits)
    ensures forall i: nat :: Bit(b + ToBits(0, 8), i) == Bit(b, i)
  {
    assert ToBits(0, 8) == seq(8, _ => false);
  }

  lemma LoadByte(before: Reader, r: Reader, c: Byte)
    requires before.Ok() && r.Ok() && r.bitsLeft + 8 <= 32
    requires r.getBuffer == before.getBuffer && r.bitsLeft == before.bitsLeft
    requires if r.unreadMarker == 0 then before.Upcoming() == ToBits(c, 8) + r.Upcoming()
             else before.Upcoming() == [] && c == 0
    ensures var r' := r.(getBuffer := Wrap32(r.getBuffer * 0x100 + c), bitsLeft := r.bitsLeft + 8);
            (forall i: nat :: Bit(r'.Pending(), i) == Bit(before.Pending(), i)) &&
            (r.unreadMarker == 0 ==> r'.Pending() == before.Pending())
  {
    ShiftIn(r.getBuffer, r.bitsLeft, c);
    Grouped(ToBits(r.getBuffer, r.bitsLeft), ToBits(c, 8), r.Upcoming());
    if r.unreadMarker != 0 { ZeroByte(ToBits(r.getBuffer, r.bitsLeft)); }
  }

  lemma Grouped(a: Bits, b: Bits, c: Bits)
    ensures a + b + c == a + (b + c) && a + [] == a && a + b + [] == a + b
  {
  }

  // ---- CHECK_BIT_BUFFER with GET_BITS, PEEK_BITS and DROP_BITS

  /** PEEK_BITS: shift right (arithmetically) and mask. */
  function PeekBits(r: Reader, n: nat): nat
    requires n <= r.bitsLeft
  {
    r.getBuffer / Pow2(r.bitsLeft - n) % Pow2(n)
  }

  /** GET_BITS and DROP_BITS move past the first `n` bits; peeking tells their value. */
  lemma Consume(r: Reader, n: nat, s: Bits, p: nat)
    requires At(r, s, p) && n <= r.bitsLeft
    ensures PeekBits(r, n) == Number(s, p, n)
    ensures At(r.(bitsLeft := r.bitsLeft - n), s, p + n) && Refilled(r, r.(bitsLeft := r.bitsLeft - n))
  {
    hide ToBits, Pow2, Number, Value, Take;
    var high := ToBits(r.getBuffer / Pow2(r.bitsLeft - n), n);
    var r' := r.(bitsLeft := r.bitsLeft - n);
    Split(r.getBuffer, n, r.bitsLeft - n);
    Grouped(high, ToBits(r.getBuffer, r.bitsLeft - n), r.Upcoming());
    assert r.Pending() == high + r'.Pending();
    Advance(high, r'.Pending(), r.Pending(), r.Terminated(), s, p);
    ValueToBits(r.getBuffer / Pow2(r.bitsLeft - n), n);
    NumberIsValue(s, p, n);
  }

  lemma Advance(high: Bits, rest: Bits, all: Bits, ended: bool, s: Bits, p: nat)
    requires all == high + rest && Begins(all, ended, s, p)
    ensures Take(s, p, |high|) == high && Begins(rest, ended, s, p + |high|)
  {
    forall i: nat | i < |high|
      ensures Take(s, p, |high|)[i] == high[i]
    {
      assert Bit(all, i) == Bit(s, p + i);
    }
    forall i: nat | i < |rest| || ended
      ensures Bit(rest, i) == Bit(s, p + |high| + i)
    {
      assert Bit(all, |high| + i) == Bit(s, p + (|high| + i));
    }
  }

  method CheckBits(r: Reader, n: nat, ghost s: Bits, ghost p: nat) returns (ok: bool, r': Reader)
    requires At(r, s, p) && n <= MIN_GET_BITS
    ensures ok ==> At(r', s, p) && Refilled(r, r') && r'.bitsLeft >= n
    ensures !ok ==> !r.Supplied()
  {
    ok, r' := true, r;
    if r.bitsLeft < n {
      ok, r' := FillBitBuffer(r, n);
      if ok { StillAt(r, r', s, p); }
    }
  }

  method GetBits(r: Reader, n: nat, ghost s: Bits, ghost p: nat) returns (ok: bool, v: nat, r': Reader)
    requires At(r, s, p) && n <= MIN_GET_BITS
    ensures ok ==> At(r', s, p + n) && Refilled(r, r') && v == Number(s, p, n)
    ensures !ok ==> !r.Supplied()
  {
    v := 0;
    ok, r' := CheckBits(r, n, s, p);
    if ok {
      Consume(r', n, s, p);
      v := PeekBits(r', n);
      r' := r'.(bitsLeft := r'.bitsLeft - n);
    }
  }

  method DropBits(r: Reader, n: nat, ghost s: Bits, ghost p: nat) returns (r': Reader)
    requires At(r, s, p) && n <= r.bitsLeft
    ensures At(r', s, p + n) && Refilled(r, r')
  {
    Consume(r, n, s, p);
    r' := r.(bitsLeft := r.bitsLeft - n);
  }
}
