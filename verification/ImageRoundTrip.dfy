/**
 * From an image to bytes and back: scanlines are written to the single-pass controller, which feeds its
 * MCUs to a coder that suspends whenever its buffer is full, and the bytes arrive at the decoder in
 * pieces. What it fetches holds every block of the image where the layout of the scan says.
 */
module ImageRoundTrip {
  import opened Bits
  import opened BlockControllers
  import opened Destination
  import opened EntropySinks
  import opened EntropySpec
  import opened HuffDecoder
  import opened HuffEncoder
  import opened ImageLayout
  import opened McuLayout
  import opened RoundTrip
  import opened ScanRoundTrip
  import opened ScanlineWriter
  import opened SequentialCoding
  import opened Suspension
  import opened Zigzag

  predicate CodablePlane(p: Plane) {
    forall row, col :: 0 <= row < |p| && 0 <= col < |p[row]| ==> Codable(p[row][col])
  }

  /** All coefficients of the image can be coded. */
  predicate CodableImage(img: seq<Plane>) {
    forall i :: 0 <= i < |img| ==> CodablePlane(img[i])
  }

  predicate AllCodable(blocks: seq<Block>) {
    forall b :: 0 <= b < |blocks| ==> Codable(blocks[b])
  }

  /** Dummies have DC values of the image's own blocks. */
  lemma EdgeCodable(c: Component, p: Plane, row: nat, g: nat, w: nat, x: nat)
    requires PlaneOk(c, p) && CodablePlane(p)
    ensures Codable(EdgeBlock(c, p, row, g, w, x))
  {
    hide Codable, DcOnly;
    if row >= c.height {
      var last := g * w + w - 1;
      DummyCodable(p[c.height - 1][if 0 <= last < c.width then last else c.width - 1]);
    } else {
      DummyCodable(p[row][c.width - 1]);
    }
  }

  lemma BlockCodable(f: Frame, s: ScanSetup, img: seq<Plane>, k: nat, mrow: nat, mcol: nat, y: nat, x: nat)
    requires Ready(f, s, img) && CodableImage(img) && k < |s.comps|
    ensures Codable(BlockOf(f, s, img, k, mrow, mcol, y, x))
  {
    hide Codable, EdgeBlock, Members, BlocksIn;
    assert CompFits(f, s, k);
    EdgeCodable(CompOf(f, s, k), PlaneOf(f, s, img, k), mrow * s.comps[k].mcuHeight + y, mcol, s.comps[k].mcuWidth, x);
  }

  lemma DummyCodable(b: Block)
    requires Codable(b)
    ensures Codable(DcOnly(b[0]))
  {
  }

  lemma {:induction false} RowsCodable(f: Frame, s: ScanSetup, img: seq<Plane>, k: nat, mrow: nat, mcol: nat, n: nat)
    requires Ready(f, s, img) && CodableImage(img) && k < |s.comps|
    ensures AllCodable(RowsOf(f, s, img, k, mrow, mcol, n))
  {
    hide BlockOf, Codable;
    if n > 0 {
      RowsCodable(f, s, img, k, mrow, mcol, n - 1);
      RowsNext(f, s, img, k, mrow, mcol, n - 1);
      var y := n - 1;
      forall x: nat | x < s.comps[k].mcuWidth
        ensures Codable(BlockOf(f, s, img, k, mrow, mcol, y, x))
      {
        BlockCodable(f, s, img, k, mrow, mcol, y, x);
      }
    }
  }

  lemma {:induction false} CompsCodable(f: Frame, s: ScanSetup, img: seq<Plane>, mrow: nat, mcol: nat, n: nat)
    requires Ready(f, s, img) && CodableImage(img) && n <= |s.comps|
    ensures AllCodable(CompsOf(f, s, img, mrow, mcol, n))
  {
    hide RowsOf, Codable;
    if n > 0 {
      CompsCodable(f, s, img, mrow, mcol, n - 1);
      RowsCodable(f, s, img, n - 1, mrow, mcol, s.comps[n - 1].mcuHeight);
    }
  }

  // ---- the place of an MCU in the scan

  /** The first `n` MCUs of a scan are those of the image. */
  ghost predicate InOrder(f: Frame, s: ScanSetup, img: seq<Plane>, mcus: seq<Mcu>)
    requires Ready(f, s, img)
  {
    forall i: nat :: i < |mcus| ==> mcus[i] == McuAt(f, s, img, i / s.mcusPerRow, i % s.mcusPerRow)
  }

  lemma {:induction false} RowInOrder(f: Frame, s: ScanSetup, img: seq<Plane>, m: nat, n: nat)
    requires Ready(f, s, img)
    ensures |RowMcus(f, s, img, m, n)| == n &&
            forall i: nat :: i < n ==> RowMcus(f, s, img, m, n)[i] == McuAt(f, s, img, m, i)
  {
    hide McuAt;
    if n > 0 { RowInOrder(f, s, img, m, n - 1); }
  }

  lemma PlaceIn(m: nat, w: nat, j: nat)
    requires j < w
    ensures (m * w + j) / w == m && (m * w + j) % w == j
  {
    DivUnique(m * w + j, w, m, j);
  }

  lemma OneMoreRow(f: Frame, s: ScanSetup, img: seq<Plane>, before: seq<Mcu>, row: seq<Mcu>, m: nat)
    requires Ready(f, s, img) && |before| == m * s.mcusPerRow && InOrder(f, s, img, before)
    requires |row| == s.mcusPerRow && forall j: nat :: j < |row| ==> row[j] == McuAt(f, s, img, m, j)
    ensures InOrder(f, s, img, before + row)
  {
    hide McuAt, Ready, Fits;
    forall i: nat | i < |before + row|
      ensures (before + row)[i] == McuAt(f, s, img, i / s.mcusPerRow, i % s.mcusPerRow)
    {
      if i >= |before| { PlaceIn(m, s.mcusPerRow, i - |before|); }
    }
  }

  lemma {:induction false} ScanInOrder(f: Frame, s: ScanSetup, img: seq<Plane>, m: nat)
    requires Ready(f, s, img)
    ensures |RowsMcus(f, s, img, m)| == m * s.mcusPerRow && InOrder(f, s, img, RowsMcus(f, s, img, m))
  {
    hide McuAt, RowMcus, InOrder, Fits, ImageOk;
    if m > 0 {
      ScanInOrder(f, s, img, m - 1);
      RowInOrder(f, s, img, m - 1, s.mcusPerRow);
      MulDistribute(m - 1, 1, s.mcusPerRow);
      OneMoreRow(f, s, img, RowsMcus(f, s, img, m - 1), RowMcus(f, s, img, m - 1, s.mcusPerRow), m - 1);
    } else {
      NoneInOrder(f, s, img);
    }
  }

  lemma ScanLength(f: Frame, s: ScanSetup, img: seq<Plane>)
    requires Ready(f, s, img)
    ensures |ScanMcus(f, s, img)| == s.mcuRows * s.mcusPerRow
  {
    ScanInOrder(f, s, img, s.mcuRows);
  }

  lemma NoneInOrder(f: Frame, s: ScanSetup, img: seq<Plane>)
    requires Ready(f, s, img)
    ensures InOrder(f, s, img, [])
  {
  }

  lemma ScanCodable(f: Frame, s: ScanSetup, img: seq<Plane>, sc: Scan)
    requires Ready(f, s, img) && CodableImage(img) && sc.membership == s.membership
    ensures CodableMcus(sc, ScanMcus(f, s, img))
  {
    hide McuAt, Codable;
    ScanInOrder(f, s, img, s.mcuRows);
    forall i: nat | i < |ScanMcus(f, s, img)|
      ensures CodableMcu(sc, ScanMcus(f, s, img)[i])
    {
      McuCodable(f, s, img, i / s.mcusPerRow, i % s.mcusPerRow);
    }
  }

  lemma McuCodable(f: Frame, s: ScanSetup, img: seq<Plane>, mrow: nat, mcol: nat)
    requires Ready(f, s, img) && CodableImage(img)
    ensures AllCodable(McuAt(f, s, img, mrow, mcol))
  {
    CompsCodable(f, s, img, mrow, mcol, |s.comps|);
  }

  // ---- the image found again

  /** The block at (row, col) of component `k`, as far as it is wanted, where the scan's layout puts it. */
  predicate BlockBack(f: Frame, s: ScanSetup, img: seq<Plane>, want: seq<Wanted>, out: seq<Mcu>, k: nat, row: nat,
      col: nat)
    requires Ready(f, s, img) && k < |s.comps| && row < CompOf(f, s, k).height && col < CompOf(f, s, k).width
  {
    var (h, w) := (s.comps[k].mcuHeight, s.comps[k].mcuWidth);
    h > 0 && w > 0 && k < |want| &&
    var i, b := row / h * s.mcusPerRow + col / w, BlocksIn(s.comps, k) + row % h * w + col % w;
    0 <= i < |out| && 0 <= b < |out[i]| && DeliversBlock(want[k], PlaneOf(f, s, img, k)[row][col], out[i][b])
  }

  /** Where the scan holds the block. */
  lemma BlockInScan(f: Frame, s: ScanSetup, img: seq<Plane>, k: nat, row: nat, col: nat) returns (i: nat, b: nat)
    requires Ready(f, s, img) && k < |s.comps| && row < CompOf(f, s, k).height && col < CompOf(f, s, k).width
    ensures s.comps[k].mcuHeight > 0 && s.comps[k].mcuWidth > 0
    ensures var (h, w) := (s.comps[k].mcuHeight, s.comps[k].mcuWidth);
            i == row / h * s.mcusPerRow + col / w && b == BlocksIn(s.comps, k) + row % h * w + col % w
    ensures i < |ScanMcus(f, s, img)| && b < |ScanMcus(f, s, img)[i]| && b < |s.membership| && s.membership[b] == k
    ensures ScanMcus(f, s, img)[i][b] == PlaneOf(f, s, img, k)[row][col]
  {
    hide McuAt, BlockOf, RowsMcus, BlocksIn, DivRoundUp, Fits;
    var (h, w, n) := (s.comps[k].mcuHeight, s.comps[k].mcuWidth, s.mcusPerRow);
    var mrow, mcol, y, x := BlockHasPlace(f, s, img, k, row, col);
    DivUnique(row, h, mrow, y);
    DivUnique(col, w, mcol, x);
    ScanInOrder(f, s, img, s.mcuRows);
    MulAtLeast(mrow + 1, s.mcuRows, n);
    MulDistribute(mrow, 1, n);
    DivUnique(mrow * n + mcol, n, mrow, mcol);
    b := McuHolds(f, s, img, k, mrow, mcol, y, x);
    i := mrow * n + mcol;
  }

  lemma BlockIsBack(f: Frame, s: ScanSetup, img: seq<Plane>, sc: Scan, want: seq<Wanted>, out: seq<Mcu>, k: nat,
      row: nat, col: nat)
    requires Ready(f, s, img) && k < |s.comps| && row < CompOf(f, s, k).height && col < CompOf(f, s, k).width
    requires sc.Valid() && sc.membership == s.membership && |want| == |sc.dcTbl|
    requires DeliversAll(sc, want, ScanMcus(f, s, img), out) && |out| == |ScanMcus(f, s, img)|
    ensures BlockBack(f, s, img, want, out, k, row, col)
  {
    hide ScanMcus, DeliversBlock, Fits, BlocksIn;
    var i, b := BlockInScan(f, s, img, k, row, col);
    assert Delivers(sc, want, ScanMcus(f, s, img)[i], out[i]);
    assert DeliversBlock(want[sc.membership[0 + b]], ScanMcus(f, s, img)[i][0 + b], out[i][b]);
  }

  // ---- the compressor's side, one run

  /** A writer of scanlines, the controller below it and the coder below that, all of one image. */
  ghost predicate Connected(w: Writer, c: CoefController, enc: Encoder, f: Frame, s: ScanSetup, img: seq<Plane>)
    reads w, w.colorBuf, w.buffer, w.Below(), c, c.sink, c.sink.Below()
  {
    Ready(f, s, img) && w.Valid() && !w.Failed() && w.below == Coefficients(c) && c.sink.kind == Sequential(enc) &&
    c.f == f && c.s == s && c.img == img && w.height == f.height && w.maxV == f.maxV && c.sink.start == []
  }

  /** A controller that has not come to the end has an MCU to feed. */
  lemma SomeMcuLeft(c: CoefController)
    requires c.Valid() && c.sink.kind.Sequential? && c.imcuRowNum < c.f.totalRows
    ensures |c.sink.fed| < |c.sink.plan|
  {
    hide StartRow, RowsPer, ScanMcus, McuAt, Fits, EntropySink.Valid, Standing;
    NextOfScan(c.f, c.s, c.img, c.sink.fed, c.imcuRowNum, c.vertOffset, c.mcuCtr);
  }

  /** The application takes the committed bytes away and offers new room. */
  method Relieve(w: Writer, c: CoefController, enc: Encoder, room: Pos, ghost f: Frame, ghost s: ScanSetup,
      ghost img: seq<Plane>)
    requires Connected(w, c, enc, f, s, img) && w.suspended
    modifies enc`dest
    ensures Connected(w, c, enc, f, s, img)
    ensures |c.sink.fed| < |c.sink.plan| &&
            (room > McuLength(enc.sc, enc.t, c.sink.plan, |c.sink.fed|) ==> w.Ample())
  {
    hide McuLength, RunBytes, RunState, RunSendable, ScanMcus, StartRow, RowsPer, Standing, Fits;
    w.FilledShaped();
    SomeMcuLeft(c);
    DrainCommitted(enc, room);
  }

  /** The rooms offered are larger than any MCU, and each call to write scanlines has read a line or
      coded an MCU. */
  ghost predicate Advancing(w: Writer, c: CoefController, enc: Encoder, rooms: nat -> Pos, i: nat)
    requires w.Took(w.curImcuRow) && w.below == Coefficients(c) && c.sink.kind == Sequential(enc)
    requires enc.sc.Valid() && enc.t.Valid() && CodableMcus(enc.sc, c.sink.plan)
    reads w, w.Below(), c, c.sink, enc
  {
    Roomy(enc.sc, enc.t, c.sink.plan, rooms) ==>
      i <= w.height - w.rowsToGo + |c.sink.fed| && (w.suspended ==> w.Ample())
  }

  /** jpeg_write_scanlines until all lines are written, called with `offers[i]` of those left; whenever
      that suspends, the application takes the committed bytes away before it calls again. */
  method WriteAll(w: Writer, c: CoefController, enc: Encoder, offers: seq<Pos>, rooms: nat -> Pos, ghost f: Frame,
      ghost s: ScanSetup, ghost img: seq<Plane>) returns (st: Status)
    requires Connected(w, c, enc, f, s, img) && w.nextScanline == 0 && !w.suspended && c.sink.fed == []
    modifies w, w.colorBuf, w.buffer, w.Below()
    ensures st == Done ==> Connected(w, c, enc, f, s, img) && w.nextScanline == w.height
    ensures st == MissingCode ==> c.sink.NoCode()
    ensures st == Suspended ==>
              |offers| <= f.height + |c.sink.plan| || !Roomy(enc.sc, enc.t, c.sink.plan, rooms)
  {
    hide McuLength, RunBytes, RunState, RunSendable, ScanMcus, StartRow, RowsPer, Standing, Fits, Writer.Filled,
         CodableMcus, SendableMcu;
    var i, k := 0, 0;
    while i < |offers| && w.nextScanline < w.height
      invariant i <= |offers| && Connected(w, c, enc, f, s, img) && Advancing(w, c, enc, rooms, i)
    {
      var written := w.WriteScanlines(offers[i]);
      if w.Failed() { return MissingCode; }
      if w.suspended {
        Relieve(w, c, enc, rooms(k), f, s, img);
        k := k + 1;
      }
      i := i + 1;
    }
    st := if w.nextScanline == w.height then Done else Suspended;
  }

  /** All lines written means that the whole scan has been coded. */
  lemma AllCoded(w: Writer, c: CoefController, enc: Encoder, f: Frame, s: ScanSetup, img: seq<Plane>)
    requires Connected(w, c, enc, f, s, img) && w.nextScanline == w.height
    ensures c.sink.fed == c.sink.plan == ScanMcus(f, s, img)
    ensures HasSent(enc, ScanMcus(f, s, img), |ScanMcus(f, s, img)|, []) && NeverTakes(enc.dest.policy)
    ensures CodableMcus(enc.sc, c.sink.plan) && RunSendable(enc.sc, enc.t, c.sink.plan, |c.sink.plan|)
  {
    hide ScanMcus, StartRow, RowsPer, Standing, Fits, GroupAt, RunBytes, RunState, RunSendable;
    AtEnd(c);
  }

  method StartCoder(sc: Scan, t: CTables, dest: Dest, ghost plan: seq<Mcu>) returns (enc: Encoder, sink: EntropySink)
    requires sc.Valid() && t.Valid() && CodableMcus(sc, plan)
    requires dest.free > 0 && dest.Stream() == [] && NeverTakes(dest.policy)
    ensures fresh(enc) && fresh(sink) && sink.Valid() && sink.kind == Sequential(enc) && sink.plan == plan
    ensures sink.start == [] && sink.fed == [] && !sink.failed && enc.sc == sc && enc.t == t
  {
    hide NeverTakes;
    enc := new Encoder(sc, t, dest);
    sink := new EntropySink.Huffman(enc, plan);
  }

  /** jpeg_start_compress: the objects of a compressor, one below the other. */
  method StartCompress(f: Frame, s: ScanSetup, img: seq<Plane>, sc: Scan, t: CTables, dest: Dest)
      returns (w: Writer, c: CoefController, enc: Encoder)
    requires Ready(f, s, img) && sc.Valid() && t.Valid() && CodableMcus(sc, ScanMcus(f, s, img))
    requires dest.free > 0 && dest.Stream() == [] && NeverTakes(dest.policy)
    ensures Connected(w, c, enc, f, s, img) && w.nextScanline == 0 && !w.suspended && c.sink.fed == []
    ensures c.sink.kind == Sequential(enc) && c.sink.plan == ScanMcus(f, s, img) && enc.sc == sc && enc.t == t
    ensures fresh(enc) && fresh(w) && fresh(w.colorBuf) && fresh(w.buffer) && fresh(w.Below())
  {
    hide ScanMcus, StartRow, RowsPer, Standing, Fits, CodableMcus, NeverTakes, HasSent, EntropySink.Valid,
         Writer.Filled;
    var sink;
    enc, sink := StartCoder(sc, t, dest, ScanMcus(f, s, img));
    c := new CoefController(PassThru, f, s, img, [], sink);
    FrameOk(f, s);
    w := new Writer(f.height, f.maxV, Coefficients(c));
  }

  lemma FrameOk(f: Frame, s: ScanSetup)
    requires Fits(f, s)
    ensures f.height > 0 && f.maxV > 0 && f.totalRows == DivRoundUp(f.height, f.maxV * DCTSIZE)
  {
  }

  /** The compressor's side: the image's scanlines become the bytes of its scan. */
  method SendImage(f: Frame, s: ScanSetup, img: seq<Plane>, sc: Scan, t: CTables, offers: seq<Pos>,
      rooms: nat -> Pos, lastRoom: Pos, dest: Dest) returns (st: Status, n: nat, src: seq<Byte>)
    requires Ready(f, s, img) && CodableImage(img) && sc.Valid() && sc.membership == s.membership && t.Valid()
    requires dest.free > 0 && dest.Stream() == [] && NeverTakes(dest.policy)
    ensures CodableMcus(sc, ScanMcus(f, s, img)) && n == |ScanMcus(f, s, img)|
    ensures st == Done ==> RunSendable(sc, t, ScanMcus(f, s, img), n) && src == ScanBytes(sc, t, ScanMcus(f, s, img))
    ensures st == MissingCode ==> !RunSendable(sc, t, ScanMcus(f, s, img), n)
    ensures st == Suspended ==>
              |offers| <= f.height + n || !Roomy(sc, t, ScanMcus(f, s, img), rooms) || lastRoom <= 2
  {
    hide ScanMcus, Connected, Fits, McuLength, RunSendable, SendableMcu, Roomy, NeverTakes, HasSent, ScanBytes;
    ghost var plan := ScanMcus(f, s, img);
    ScanCodable(f, s, img, sc);
    ScanLength(f, s, img);
    n, src := s.mcuRows * s.mcusPerRow, [];
    var w, c, enc := StartCompress(f, s, img, sc, t, dest);
    st := WriteAll(w, c, enc, offers, rooms, f, s, img);
    if st == MissingCode { OneMissing(sc, t, plan, |c.sink.fed|); }
    if st == Done {
      AllCoded(w, c, enc, f, s, img);
      st := EndDrained(enc, plan, lastRoom, []);
      src := enc.dest.written + enc.dest.buf;
    }
  }

  /** An image goes through all of it: its scanlines are offered as the application likes, the coder
      suspends whenever its buffer is full, and the bytes arrive at the decoder in any pieces. What comes
      back is the scan of the image as far as its bytes have arrived and its components are wanted, and
      once they all have, every block is in its place. It fails only if a symbol has no code, or for want of
      lines offered or room. */
  method CodeImage(f: Frame, s: ScanSetup, img: seq<Plane>, sc: Scan, hs: HuffTables, want: seq<Wanted>,
      offers: seq<Pos>, rooms: nat -> Pos, lastRoom: Pos, dest: Dest, tail: seq<Byte>, arrivals: seq<nat>)
    returns (st: Status, t: CTables, src: seq<Byte>, out: seq<Mcu>)
    requires Ready(f, s, img) && CodableImage(img) && sc.Valid() && sc.membership == s.membership && hs.Valid()
    requires EndsInMarker(tail) && dest.free > 0 && dest.Stream() == [] && NeverTakes(dest.policy) &&
             |want| == |sc.dcTbl|
    ensures Matches(hs, t) && CodableMcus(sc, ScanMcus(f, s, img))
    ensures st == Done ==> src == ScanBytes(sc, t, ScanMcus(f, s, img)) + tail
    ensures st == Done ==> DeliversAll(sc, want, ScanMcus(f, s, img), out)
    ensures st == Done && Total(arrivals) >= |src| ==>
              forall k: nat, row: nat, col: nat ::
                k < |s.comps| && row < CompOf(f, s, k).height && col < CompOf(f, s, k).width ==>
                  BlockBack(f, s, img, want, out, k, row, col)
    ensures st == MissingCode ==> !RunSendable(sc, t, ScanMcus(f, s, img), |ScanMcus(f, s, img)|)
    ensures st == Suspended ==>
              |offers| <= f.height + |ScanMcus(f, s, img)| || !Roomy(sc, t, ScanMcus(f, s, img), rooms) || lastRoom <= 2
  {
    hide BlockBack, ScanMcus, CompOf, ScanBytes, Roomy, CodableMcus, Fits, Total, DeliversAll;
    out := [];
    ghost var plan := ScanMcus(f, s, img);
    t := MakeTables(hs);
    var n;
    st, n, src := SendImage(f, s, img, sc, t, offers, rooms, lastRoom, dest);
    if st != Done { return; }
    src := src + tail;
    StartsInStep(sc, want, t, plan, tail, src, 0);
    var dec := new Decoder(sc, hs, want, src, 0);
    var res;
    res, out := DecodeScan(dec, n, arrivals, t, plan, tail);
    if res == Complete {
      forall k: nat, row: nat, col: nat |
          k < |s.comps| && row < CompOf(f, s, k).height && col < CompOf(f, s, k).width
        ensures BlockBack(f, s, img, want, out, k, row, col)
      {
        BlockIsBack(f, s, img, sc, want, out, k, row, col);
      }
    }
  }
}
