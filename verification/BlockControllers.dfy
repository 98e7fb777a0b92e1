/**
 * The three controllers that feed the entropy coder: single-pass compression and the full-buffer
 * passes of jccoefct.c, and the transcoder of jctrans.c. The entropy coder may refuse any MCU; the
 * controller then returns and resumes at the same MCU when it is called again. Whatever the
 * refusals, each feeds the coder the same MCUs in the same order.
 */
module BlockControllers {
  import opened Bits
  import opened EntropySinks
  import opened ImageLayout
  import opened McuLayout
  import opened Zigzag

  // ---- iMCU rows

  /** start_iMCU_row: the MCU rows of an iMCU row. */
  function RowsPer(f: Frame, s: ScanSetup, r: nat): (n: nat)
    requires Fits(f, s)
    ensures n > 0
  {
    assert CompFits(f, s, 0);
    if |s.comps| > 1 then 1
    else if r < f.totalRows - 1 then CompOf(f, s, 0).v else s.comps[0].lastRowHeight
  }

  /** The first MCU row of an iMCU row. */
  function StartRow(f: Frame, s: ScanSetup, r: nat): nat
    requires Fits(f, s)
  {
    if r == 0 then 0 else StartRow(f, s, r - 1) + RowsPer(f, s, r - 1)
  }

  lemma {:induction false} StartRowIs(f: Frame, s: ScanSetup, r: nat)
    requires Fits(f, s) && r <= f.totalRows
    ensures r < f.totalRows ==> StartRow(f, s, r) == if |s.comps| > 1 then r else r * CompOf(f, s, 0).v
    ensures r == f.totalRows ==> StartRow(f, s, r) == s.mcuRows
  {
    assert CompFits(f, s, 0);
    if r > 0 {
      StartRowIs(f, s, r - 1);
      MulDistribute(r - 1, 1, CompOf(f, s, 0).v);
    }
  }

  /** The block row that row `y` of an MCU of component `k` is, in MCU row `yoffset` of iMCU row `r`. */
  function RowNumber(f: Frame, s: ScanSetup, k: nat, r: nat, yoffset: nat, y: nat): nat
    requires Fits(f, s) && k < |s.comps|
  {
    r * CompOf(f, s, k).v + (yoffset + y)
  }

  predicate InScan(f: Frame, s: ScanSetup, k: nat, r: nat, yoffset: nat, y: nat) {
    Fits(f, s) && k < |s.comps| && r < f.totalRows && yoffset < RowsPer(f, s, r) && y < s.comps[k].mcuHeight
  }

  lemma BlockRow(f: Frame, s: ScanSetup, k: nat, r: nat, yoffset: nat, y: nat)
    requires InScan(f, s, k, r, yoffset, y)
    ensures (StartRow(f, s, r) + yoffset) * s.comps[k].mcuHeight + y == RowNumber(f, s, k, r, yoffset, y)
    ensures yoffset + y < CompOf(f, s, k).v
  {
    hide StartRow, DivRoundUp, BlocksIn, Members;
    assert CompFits(f, s, k) && CompFits(f, s, 0);
    StartRowIs(f, s, r);
  }

  /** The controllers' test for a real row. */
  lemma RealRow(f: Frame, s: ScanSetup, k: nat, r: nat, yoffset: nat, y: nat)
    requires InScan(f, s, k, r, yoffset, y)
    ensures r < f.totalRows - 1 || yoffset + y < s.comps[k].lastRowHeight <==>
            RowNumber(f, s, k, r, yoffset, y) < CompOf(f, s, k).height
    ensures y == 0 ==> RowNumber(f, s, k, r, yoffset, y) < CompOf(f, s, k).height
  {
    hide StartRow, DivRoundUp, BlocksIn, Members;
    assert CompFits(f, s, k) && CompFits(f, s, 0);
    BlockRow(f, s, k, r, yoffset, y);
    var v := CompOf(f, s, k).v;
    if r < f.totalRows - 1 {
      MulAtLeast(r + 1, f.totalRows - 1, v);
      MulDistribute(r, 1, v);
    }
  }

  /** How many blocks of component `k` are real in an MCU column. */
  function RealColumns(s: ScanSetup, k: nat, mcol: nat): nat
    requires k < |s.comps|
  {
    if mcol < s.mcusPerRow - 1 then s.comps[k].mcuWidth else s.comps[k].lastColWidth
  }

  lemma RealColumnsAre(f: Frame, s: ScanSetup, k: nat, mcol: nat)
    requires Fits(f, s) && k < |s.comps| && mcol < s.mcusPerRow
    ensures var w := s.comps[k].mcuWidth;
            0 < RealColumns(s, k, mcol) <= w && mcol * w + RealColumns(s, k, mcol) <= CompOf(f, s, k).width &&
            (RealColumns(s, k, mcol) < w ==> mcol * w + RealColumns(s, k, mcol) == CompOf(f, s, k).width)
  {
    assert CompFits(f, s, k);
    if mcol < s.mcusPerRow - 1 {
      MulAtLeast(mcol + 1, s.mcusPerRow - 1, s.comps[k].mcuWidth);
      MulDistribute(mcol, 1, s.comps[k].mcuWidth);
    }
  }

  /** What the coder has been fed when a controller stands at an MCU. */
  predicate Standing(f: Frame, s: ScanSetup, img: seq<Plane>, fed: seq<seq<Block>>, base: seq<seq<Block>>, r: nat,
      yoffset: nat, mcol: nat)
    requires Ready(f, s, img)
  {
    fed == base + McusBefore(f, s, img, StartRow(f, s, r) + yoffset, mcol)
  }

  lemma StandsAtStart(f: Frame, s: ScanSetup, img: seq<Plane>, fed: seq<seq<Block>>)
    requires Ready(f, s, img)
    ensures Standing(f, s, img, fed, fed, 0, 0, 0)
  {
    assert fed + [] == fed;
  }

  lemma StandsNext(f: Frame, s: ScanSetup, img: seq<Plane>, fed: seq<seq<Block>>, base: seq<seq<Block>>, r: nat,
      yoffset: nat, mcol: nat)
    requires Ready(f, s, img) && Standing(f, s, img, fed, base, r, yoffset, mcol)
    ensures Standing(f, s, img, fed + [McuAt(f, s, img, StartRow(f, s, r) + yoffset, mcol)], base, r, yoffset, mcol + 1)
  {
    hide McusBefore, McuAt, Fits, StartRow;
    var m := StartRow(f, s, r) + yoffset;
    OneMoreMcu(f, s, img, m, mcol);
    AppendedMcu(base, McusBefore(f, s, img, m, mcol), [McuAt(f, s, img, m, mcol)]);
  }

  lemma AppendedMcu(a: seq<seq<Block>>, b: seq<seq<Block>>, c: seq<seq<Block>>)
    ensures a + b + c == a + (b + c)
  {
  }

  lemma StandsInNextRow(f: Frame, s: ScanSetup, img: seq<Plane>, fed: seq<seq<Block>>, base: seq<seq<Block>>, r: nat,
      yoffset: nat)
    requires Ready(f, s, img) && Standing(f, s, img, fed, base, r, yoffset, s.mcusPerRow)
    ensures Standing(f, s, img, fed, base, r, yoffset + 1, 0)
  {
    hide McusBefore, McuAt, Fits, StartRow;
    RowComplete(f, s, img, StartRow(f, s, r) + yoffset);
  }

  lemma StandsInNextImcuRow(f: Frame, s: ScanSetup, img: seq<Plane>, fed: seq<seq<Block>>, base: seq<seq<Block>>,
      r: nat)
    requires Ready(f, s, img) && Standing(f, s, img, fed, base, r, RowsPer(f, s, r), 0)
    ensures Standing(f, s, img, fed, base, r + 1, 0, 0)
  {
    hide McusBefore, McuAt, Fits, RowsPer;
  }

  /** At the end the whole scan has been fed. */
  lemma StandsAtEnd(f: Frame, s: ScanSetup, img: seq<Plane>, fed: seq<seq<Block>>, base: seq<seq<Block>>)
    requires Ready(f, s, img) && Standing(f, s, img, fed, base, f.totalRows, 0, 0)
    ensures fed == base + ScanMcus(f, s, img)
  {
    StartRowIs(f, s, f.totalRows);
  }

  lemma {:induction false} RowBegins(f: Frame, s: ScanSetup, img: seq<Plane>, m: nat, n: nat, all: nat)
    requires Ready(f, s, img) && n <= all
    ensures RowMcus(f, s, img, m, n) <= RowMcus(f, s, img, m, all)
    decreases all
  {
    hide McuAt, Fits;
    if n < all { RowBegins(f, s, img, m, n, all - 1); }
  }

  lemma {:induction false} ScanBegins(f: Frame, s: ScanSetup, img: seq<Plane>, m: nat, n: nat, rows: nat)
    requires Ready(f, s, img) && m < rows && n <= s.mcusPerRow
    ensures McusBefore(f, s, img, m, n) <= RowsMcus(f, s, img, rows)
    decreases rows
  {
    hide McuAt, Fits;
    if m < rows - 1 { ScanBegins(f, s, img, m, n, rows - 1); } else { RowBegins(f, s, img, m, n, s.mcusPerRow); }
  }

  /** Where a controller stands in its first scan, the MCU it has come to is the next of the scan. */
  lemma NextOfScan(f: Frame, s: ScanSetup, img: seq<Plane>, fed: seq<seq<Block>>, r: nat, yoffset: nat, mcol: nat)
    requires Ready(f, s, img) && Standing(f, s, img, fed, [], r, yoffset, mcol)
    requires r < f.totalRows && yoffset < RowsPer(f, s, r) && mcol < s.mcusPerRow
    ensures |fed| < |ScanMcus(f, s, img)| &&
            ScanMcus(f, s, img)[|fed|] == McuAt(f, s, img, StartRow(f, s, r) + yoffset, mcol)
  {
    hide McuAt, RowsMcus, RowMcus, Fits, StartRow, RowsPer;
    var m := StartRow(f, s, r) + yoffset;
    RowOfScan(f, s, r, yoffset);
    OneMoreMcu(f, s, img, m, mcol);
    ScanBegins(f, s, img, m, mcol + 1, s.mcuRows);
    LastOne(fed + [McuAt(f, s, img, m, mcol)], ScanMcus(f, s, img));
    assert fed == McusBefore(f, s, img, m, mcol);
  }

  lemma LastOne<T>(a: seq<T>, all: seq<T>)
    requires a <= all && |a| > 0
    ensures all[|a| - 1] == a[|a| - 1]
  {
  }

  lemma RowOfScan(f: Frame, s: ScanSetup, r: nat, yoffset: nat)
    requires Fits(f, s) && r < f.totalRows && yoffset < RowsPer(f, s, r)
    ensures StartRow(f, s, r) + yoffset < s.mcuRows
  {
    hide DivRoundUp, BlocksIn, Members, Fits, CompFits, StartRow, RowsPer;
    StartRowIs(f, s, r + 1);
    NextStart(f, s, r);
    RowsOfScan(f, s);
    if r + 1 < f.totalRows { MulAtLeast(r + 1, f.totalRows - 1, CompOf(f, s, 0).v); }
  }

  lemma NextStart(f: Frame, s: ScanSetup, r: nat)
    requires Fits(f, s)
    ensures StartRow(f, s, r + 1) == StartRow(f, s, r) + RowsPer(f, s, r)
  {
    hide RowsPer, Fits;
  }

  lemma RowsOfScan(f: Frame, s: ScanSetup)
    requires Fits(f, s)
    ensures |s.comps| > 0
    ensures CompOf(f, s, 0).v > 0 &&
            if |s.comps| == 1 then s.mcuRows > (f.totalRows - 1) * CompOf(f, s, 0).v else s.mcuRows == f.totalRows
  {
    hide DivRoundUp, BlocksIn, Members;
    assert CompFits(f, s, 0);
  }

  // ---- the virtual arrays of the full-buffer modes

  /** The width of a component's array: whole groups of blocks. */
  function PaddedWidth(c: Component): nat
    requires c.h > 0
  {
    DivRoundUp(c.width, c.h) * c.h
  }

  /** A row of a component's array, with the dummies behind and below the real blocks. */
  predicate RowLoaded(c: Component, p: Plane, row: nat, r: seq<Block>) {
    c.h > 0 && PlaneOk(c, p) && |r| == PaddedWidth(c) &&
    forall col :: 0 <= col < |r| ==> r[col] == EdgeBlock(c, p, row, col / c.h, c.h, col % c.h)
  }

  /** The block an MCU needs, found where compress_output looks for it. */
  lemma StoredBlock(f: Frame, s: ScanSetup, img: seq<Plane>, k: nat, r: nat, yoffset: nat, y: nat, mcol: nat, x: nat,
      row: seq<Block>)
    requires Ready(f, s, img) && InScan(f, s, k, r, yoffset, y) && mcol < s.mcusPerRow && x < s.comps[k].mcuWidth
    requires RowLoaded(CompOf(f, s, k), PlaneOf(f, s, img, k), RowNumber(f, s, k, r, yoffset, y), row)
    ensures var col := mcol * s.comps[k].mcuWidth + x;
            0 <= col < |row| && row[col] == BlockOf(f, s, img, k, StartRow(f, s, r) + yoffset, mcol, y, x)
  {
    hide StartRow, RowsPer, EdgeBlock, Fits, ImageOk, PaddedWidth;
    var c, col := CompOf(f, s, k), mcol * s.comps[k].mcuWidth + x;
    BlockRow(f, s, k, r, yoffset, y);
    RealRow(f, s, k, r, yoffset, y);
    ColumnInside(f, s, k, mcol, x, col);
    if |s.comps| == 1 { RealColumn(c, PlaneOf(f, s, img, k), RowNumber(f, s, k, r, yoffset, y), col); }
  }

  /** The column of a block of an MCU, in the groups of the array. */
  lemma ColumnInside(f: Frame, s: ScanSetup, k: nat, mcol: nat, x: nat, col: nat)
    requires Fits(f, s) && k < |s.comps| && mcol < s.mcusPerRow && x < s.comps[k].mcuWidth &&
             col == mcol * s.comps[k].mcuWidth + x
    ensures var c := CompOf(f, s, k);
            c.h > 0 && col < PaddedWidth(c) &&
            if |s.comps| == 1 then s.comps[k].mcuHeight == s.comps[k].mcuWidth == 1 && x == 0 && col == mcol < c.width
            else s.comps[k].mcuWidth == c.h && col / c.h == mcol && col % c.h == x
  {
    hide Members, BlocksIn, DivRoundUp;
    assert CompFits(f, s, k);
    if |s.comps| > 1 {
      GroupColumn(CompOf(f, s, k), s.mcusPerRow, s.comps[k].lastColWidth, mcol, x, col);
    } else {
      AtLeastWidth(CompOf(f, s, k));
    }
  }

  lemma GroupColumn(c: Component, groups: nat, last: nat, g: nat, x: nat, col: nat)
    requires c.h > 0 && g < groups && x < c.h && 0 < last <= c.h && c.width == (groups - 1) * c.h + last &&
             col == g * c.h + x
    ensures col < PaddedWidth(c) && col / c.h == g && col % c.h == x
  {
    MulAtLeast(g + 1, groups, c.h);
    MulDistribute(g, 1, c.h);
    MulDistribute(groups, -1, c.h);
    RoundUpIs(c.width, c.h, groups);
    DivUnique(col, c.h, g, x);
  }

  /** A real block, whatever the grouping. */
  lemma RealColumn(c: Component, p: Plane, row: nat, col: nat)
    requires PlaneOk(c, p) && c.h > 0 && row < c.height && col < c.width
    ensures EdgeBlock(c, p, row, col / c.h, c.h, col % c.h) == p[row][col] == EdgeBlock(c, p, row, col, 1, 0)
  {
    hide DcOnly;
    Recombined(col, c.h);
    Recombined(col, 1);
  }

  lemma Recombined(col: nat, h: nat)
    requires h > 0
    ensures (col / h) * h + col % h == col
  {
  }

  lemma AtLeastWidth(c: Component)
    requires c.h > 0
    ensures c.width <= PaddedWidth(c)
  {
  }

  /** Block row `b` of component `i` in iMCU row `r` is in the arrays, dummies included. */
  predicate LoadedIn(f: Frame, img: seq<Plane>, w: seq<seq<seq<Block>>>, i: nat, r: nat, b: nat)
    requires ImageOk(f, img) && i < |f.comps|
  {
    |w| == |f.comps| && r * f.comps[i].v + b < |w[i]| &&
    RowLoaded(f.comps[i], img[i], r * f.comps[i].v + b, w[i][r * f.comps[i].v + b])
  }

  predicate StripIn(f: Frame, img: seq<Plane>, w: seq<seq<seq<Block>>>, r: nat)
    requires ImageOk(f, img)
  {
    forall i: nat, b: nat :: i < |f.comps| && b < f.comps[i].v ==> LoadedIn(f, img, w, i, r, b)
  }

  /** The first `n` strips have been loaded. */
  predicate AllIn(f: Frame, img: seq<Plane>, w: seq<seq<seq<Block>>>, n: nat)
    requires ImageOk(f, img)
  {
    forall r: nat :: r < n ==> StripIn(f, img, w, r)
  }

  /** The transcoder is given arrays with the real blocks, and nothing is known of the rest. */
  predicate GivenIn(f: Frame, img: seq<Plane>, w: seq<seq<seq<Block>>>)
    requires ImageOk(f, img)
  {
    |w| == |f.comps| &&
    forall i: nat :: i < |f.comps| ==>
      |w[i]| >= f.comps[i].height &&
      forall row: nat :: row < f.comps[i].height ==>
        |w[i][row]| >= f.comps[i].width && w[i][row][..f.comps[i].width] == img[i][row]
  }

  /** A pointer in the list of an MCU's blocks: into a virtual array, or to a dummy of the work buffer. */
  datatype BlockPtr = Stored(index: nat, row: nat, col: nat) | Work(i: nat)

  datatype Mode = PassThru | FromArrays | Transcode

  // ---- the controller

  class CoefController {
    const mode: Mode
    const dummyBuffer: array<Block>
    var whole: seq<seq<seq<Block>>>
    const f: Frame
    const s: ScanSetup
    const img: seq<Plane>
    const sink: EntropySink
    const mcuBuffer: array<Block>
    ghost const base: seq<seq<Block>>
    var imcuRowNum: nat
    var mcuCtr: nat
    var vertOffset: nat
    var rowsPerImcuRow: nat

    ghost predicate Shaped()
    {
      Ready(f, s, img) && (sink.kind.Sequential? ==> base == [] && sink.plan == ScanMcus(f, s, img)) &&
      mcuBuffer.Length == dummyBuffer.Length == C_MAX_BLOCKS_IN_MCU && mcuBuffer != dummyBuffer
    }

    /** Whatever has been stored in the dummies' DC entries, the other entries stay zero. */
    predicate DummiesBlank()
      reads dummyBuffer
    {
      forall i :: 0 <= i < dummyBuffer.Length ==> dummyBuffer[i] == DcOnly(dummyBuffer[i][0])
    }

    /** The arrays have room for whole groups of block rows. */
    predicate ArraysOk()
      requires ImageOk(f, img)
      reads `whole
    {
      |whole| == |f.comps| && forall i :: 0 <= i < |whole| ==> |whole[i]| == f.totalRows * f.comps[i].v
    }

    /** Of strip `r`, the first `n` components. */
    predicate CompsIn(w: seq<seq<seq<Block>>>, n: nat, r: nat)
      requires ImageOk(f, img) && n <= |f.comps|
    {
      forall i: nat, b: nat :: i < n && b < f.comps[i].v ==> LoadedIn(f, img, w, i, r, b)
    }

    predicate StripLoaded(r: nat)
      requires ImageOk(f, img)
      reads `whole
    {
      StripIn(f, img, whole, r)
    }

    predicate Given()
      requires ImageOk(f, img)
      reads `whole
    {
      GivenIn(f, img, whole)
    }

    /** What a pointer points to. */
    predicate Points(q: BlockPtr, b: Block)
      reads `whole, dummyBuffer
    {
      match q
      case Stored(i, row, col) => i < |whole| && row < |whole[i]| && col < |whole[i][row]| && whole[i][row][col] == b
      case Work(i) => i < dummyBuffer.Length && dummyBuffer[i] == b
    }

    /** The list points to the blocks of `target`; a dummy in it is the one of its own place. */
    predicate Listed(ptrs: seq<BlockPtr>, target: seq<Block>)
      reads `whole, dummyBuffer
    {
      |ptrs| == |target| &&
      forall j :: 0 <= j < |ptrs| ==> Points(ptrs[j], target[j]) && (ptrs[j].Work? ==> ptrs[j].i == j)
    }

    ghost predicate Valid()
      reads this, sink, sink.Below()
    {
      Shaped() && sink.Valid() && imcuRowNum <= f.totalRows && rowsPerImcuRow == RowsPer(f, s, imcuRowNum) &&
      vertOffset < rowsPerImcuRow && mcuCtr < s.mcusPerRow &&
      (imcuRowNum == f.totalRows ==> vertOffset == mcuCtr == 0) &&
      Standing(f, s, img, sink.fed, base, imcuRowNum, vertOffset, mcuCtr)
    }

    /** What the mode asks of the arrays before an iMCU row is encoded. */
    ghost predicate Prepared()
      requires ImageOk(f, img)
      reads `whole, `imcuRowNum, dummyBuffer
    {
      match mode
      case PassThru => true
      case FromArrays => StripLoaded(imcuRowNum)
      case Transcode => Given() && DummiesBlank()
    }

    /** start_pass_coef of either file. `img` stands for what forward_DCT makes of the input, or for
        the coefficients given to the transcoder. */
    constructor (mode: Mode, f: Frame, s: ScanSetup, img: seq<Plane>, whole: seq<seq<seq<Block>>>, sink: EntropySink)
      requires Ready(f, s, img) && sink.Valid() &&
               (sink.kind.Sequential? ==> sink.fed == [] && sink.plan == ScanMcus(f, s, img))
      ensures Valid() && imcuRowNum == 0 && mcuCtr == vertOffset == 0 && fresh(mcuBuffer) && fresh(dummyBuffer) &&
              DummiesBlank()
      ensures this.mode == mode && this.f == f && this.s == s && this.img == img && this.whole == whole &&
              this.sink == sink && base == sink.fed
    {
      hide Standing, StartRow, RowsPer, ScanMcus, CompFits, DivRoundUp, BlocksIn, Members, PlaneOk;
      StandsAtStart(f, s, img, sink.fed);
      this.mode, this.f, this.s, this.img, this.whole, this.sink, base := mode, f, s, img, whole, sink, sink.fed;
      mcuBuffer := new Block[C_MAX_BLOCKS_IN_MCU](_ => DcOnly(0));
      dummyBuffer := new Block[C_MAX_BLOCKS_IN_MCU](_ => DcOnly(0));
      imcuRowNum, mcuCtr, vertOffset, rowsPerImcuRow := 0, 0, 0, RowsPer(f, s, 0);
    }

    method StartImcuRow()
      requires Shaped()
      modifies `rowsPerImcuRow, `mcuCtr, `vertOffset
      ensures rowsPerImcuRow == RowsPer(f, s, imcuRowNum) && mcuCtr == 0 && vertOffset == 0
    {
      if |s.comps| > 1 {
        rowsPerImcuRow := 1;
      } else {
        assert CompFits(f, s, 0);
        rowsPerImcuRow := if imcuRowNum < f.totalRows - 1 then f.comps[s.comps[0].index].v
            else s.comps[0].lastRowHeight;
      }
      mcuCtr, vertOffset := 0, 0;
    }

    /** compress_data: the single-pass case. */
    method CompressData() returns (done: bool)
      requires Valid() && !sink.failed && imcuRowNum < f.totalRows && mode == PassThru
      modifies this, mcuBuffer, dummyBuffer, sink, sink.Below()
      ensures Valid() && imcuRowNum == (if done then old(imcuRowNum) + 1 else old(imcuRowNum))
      ensures (done ==> !sink.failed) && (!done ==> sink.Refused())
      ensures |sink.fed| >= |old(sink.fed)|
      ensures done || old(sink.Ample()) ==> sink.failed || |sink.fed| > |old(sink.fed)|
    {
      done := EncodeImcuRow();
    }

    /** compress_first_pass: load the strip, dummies included, and encode it. */
    method CompressFirstPass() returns (done: bool)
      requires Valid() && !sink.failed && imcuRowNum < f.totalRows && mode == FromArrays && ArraysOk()
      requires AllIn(f, img, whole, imcuRowNum)
      modifies this, mcuBuffer, dummyBuffer, sink, sink.Below()
      ensures Valid() && ArraysOk() && imcuRowNum == (if done then old(imcuRowNum) + 1 else old(imcuRowNum))
      ensures AllIn(f, img, whole, imcuRowNum)
      ensures (done ==> !sink.failed) && (!done ==> sink.Refused())
      ensures |sink.fed| >= |old(sink.fed)|
      ensures done || old(sink.Ample()) ==> sink.failed || |sink.fed| > |old(sink.fed)|
    {
      hide StartRow, RowsPer, McusBefore, RowLoaded, CompFits, Members, BlocksIn, DivRoundUp;
      LoadStrip();
      StillAllLoaded(old(whole), whole, imcuRowNum);
      done := EncodeImcuRow();
    }

    /** compress_output of a full-buffer pass, and of the transcoder. */
    method CompressOutput() returns (done: bool)
      requires Valid() && !sink.failed && imcuRowNum < f.totalRows && mode != PassThru && Prepared()
      modifies this, mcuBuffer, dummyBuffer, sink, sink.Below()
      ensures Valid() && whole == old(whole) && imcuRowNum == (if done then old(imcuRowNum) + 1 else old(imcuRowNum))
      ensures mode == Transcode ==> Prepared()
      ensures (done ==> !sink.failed) && (!done ==> sink.Refused())
      ensures |sink.fed| >= |old(sink.fed)|
      ensures done || old(sink.Ample()) ==> sink.failed || |sink.fed| > |old(sink.fed)|
    {
      done := EncodeImcuRow();
    }

    /** The loop the three share: an iMCU row, or as much of it as the entropy coder takes. */
    method EncodeImcuRow() returns (done: bool)
      requires Valid() && !sink.failed && imcuRowNum < f.totalRows && Prepared()
      modifies `imcuRowNum, `mcuCtr, `vertOffset, `rowsPerImcuRow, mcuBuffer, dummyBuffer, sink, sink.Below()
      ensures Valid() && (mode == Transcode ==> Prepared()) &&
              imcuRowNum == (if done then old(imcuRowNum) + 1 else old(imcuRowNum))
      ensures (done ==> !sink.failed) && (!done ==> sink.Refused())
      ensures |sink.fed| >= |old(sink.fed)|
      ensures done || old(sink.Ample()) ==> sink.failed || |sink.fed| > |old(sink.fed)|
    {
      hide StartRow, McusBefore, McuAt, RowsPer, Fits, ScanMcus, EntropySink.Valid, EntropySink.Ample;
      done := true;
      var yoffset := vertOffset;
      while yoffset < rowsPerImcuRow
        invariant Shaped() && imcuRowNum == old(imcuRowNum) && rowsPerImcuRow == RowsPer(f, s, imcuRowNum) &&
                  yoffset <= rowsPerImcuRow && mcuCtr < s.mcusPerRow && vertOffset == old(vertOffset) <= yoffset
        invariant Standing(f, s, img, sink.fed, base, imcuRowNum, yoffset, mcuCtr) &&
                  (yoffset == rowsPerImcuRow ==> mcuCtr == 0) && Prepared() && sink.Valid() && !sink.failed
        invariant if yoffset == old(vertOffset) then sink.fed == old(sink.fed) && (old(sink.Ample()) ==> sink.Ample())
                  else |sink.fed| > |old(sink.fed)|
      {
        done := McuRow(yoffset);
        if !done { return; }
        mcuCtr := 0;
        yoffset := yoffset + 1;
      }
      StandsInNextImcuRow(f, s, img, sink.fed, base, imcuRowNum);
      imcuRowNum := imcuRowNum + 1;
      StartImcuRow();
    }

    /** The rest of an MCU row. */
    method McuRow(yoffset: nat) returns (done: bool)
      requires Shaped() && imcuRowNum < f.totalRows && yoffset < RowsPer(f, s, imcuRowNum) && mcuCtr < s.mcusPerRow &&
               Prepared()
      requires Standing(f, s, img, sink.fed, base, imcuRowNum, yoffset, mcuCtr) && sink.Valid() && !sink.failed
      modifies `mcuCtr, `vertOffset, mcuBuffer, dummyBuffer, sink, sink.Below()
      ensures sink.Valid() && Prepared() && (done ==> Standing(f, s, img, sink.fed, base, imcuRowNum, yoffset + 1, 0))
      ensures !done ==>
                vertOffset == yoffset && mcuCtr < s.mcusPerRow &&
                Standing(f, s, img, sink.fed, base, imcuRowNum, vertOffset, mcuCtr)
      ensures (done ==> !sink.failed && vertOffset == old(vertOffset)) && (!done ==> sink.Refused())
      ensures |sink.fed| >= |old(sink.fed)|
      ensures done || old(sink.Ample()) ==> sink.failed || |sink.fed| > |old(sink.fed)|
    {
      hide StartRow, RowsPer, McuAt, McusBefore, Fits, ScanMcus, EntropySink.Valid, EntropySink.Ample,
           CoefController.Prepared;
      var mcol := mcuCtr;
      while mcol < s.mcusPerRow
        invariant mcuCtr == old(mcuCtr) <= mcol <= s.mcusPerRow &&
                  Standing(f, s, img, sink.fed, base, imcuRowNum, yoffset, mcol) && Prepared()
        invariant sink.Valid() && !sink.failed && vertOffset == old(vertOffset)
        invariant if mcol == mcuCtr then sink.fed == old(sink.fed) && (old(sink.Ample()) ==> sink.Ample())
                  else |sink.fed| > |old(sink.fed)|
      {
        var mcu := PrepareMcu(yoffset, mcol);
        if sink.kind.Sequential? { NextOfScan(f, s, img, sink.fed, imcuRowNum, yoffset, mcol); }
        StandsNext(f, s, img, sink.fed, base, imcuRowNum, yoffset, mcol);
        done := sink.EncodeMcu(mcu);
        if !done {
          vertOffset, mcuCtr := yoffset, mcol;
          return;
        }
        mcol := mcol + 1;
      }
      StandsInNextRow(f, s, img, sink.fed, base, imcuRowNum, yoffset);
      done := true;
    }

    /** The blocks the entropy coder is shown. */
    method PrepareMcu(yoffset: nat, mcol: nat) returns (mcu: seq<Block>)
      requires Shaped() && imcuRowNum < f.totalRows && yoffset < RowsPer(f, s, imcuRowNum) && mcol < s.mcusPerRow &&
               Prepared()
      modifies mcuBuffer, dummyBuffer
      ensures Prepared() && mcu == McuAt(f, s, img, StartRow(f, s, imcuRowNum) + yoffset, mcol)
    {
      if mode == PassThru {
        BuildMcu(yoffset, mcol);
        mcu := mcuBuffer[..|s.membership|];
      } else {
        var ptrs := ListMcu(yoffset, mcol);
        ghost var target := McuAt(f, s, img, StartRow(f, s, imcuRowNum) + yoffset, mcol);
        assert forall j :: 0 <= j < |ptrs| ==> Points(ptrs[j], target[j]);
        mcu := seq(|ptrs|, j requires 0 <= j < |ptrs| && Points(ptrs[j], target[j]) reads this,
            dummyBuffer => Deref(ptrs[j]));
      }
    }

    function Deref(q: BlockPtr): Block
      requires match q case Stored(i, row, col) => i < |whole| && row < |whole[i]| &&
               col < |whole[i][row]| case Work(i) => i < dummyBuffer.Length
      reads `whole, dummyBuffer
    {
      match q
      case Stored(i, row, col) => whole[i][row][col]
      case Work(i) => dummyBuffer[i]
    }

    /** An MCU in the buffer. */
    method BuildMcu(yoffset: nat, mcol: nat)
      requires Shaped() && imcuRowNum < f.totalRows && yoffset < RowsPer(f, s, imcuRowNum) && mcol < s.mcusPerRow
      modifies mcuBuffer
      ensures mcuBuffer[..|s.membership|] == McuAt(f, s, img, StartRow(f, s, imcuRowNum) + yoffset, mcol)
    {
      hide StartRow, RowsOf, RowsPer;
      ghost var mrow := StartRow(f, s, imcuRowNum) + yoffset;
      var blkn := 0;
      for ci := 0 to |s.comps|
        invariant blkn == BlocksIn(s.comps, ci) && blkn <= C_MAX_BLOCKS_IN_MCU &&
                  mcuBuffer[..blkn] == CompsOf(f, s, img, mrow, mcol, ci)
      {
        BlocksGrow(s.comps, ci + 1, |s.comps|);
        blkn := BuildComp(ci, yoffset, mcol, blkn);
      }
    }

    /** The blocks of one component. */
    method BuildComp(ci: nat, yoffset: nat, mcol: nat, blkn0: nat) returns (blkn: nat)
      requires Shaped() && imcuRowNum < f.totalRows && yoffset < RowsPer(f, s, imcuRowNum) && mcol < s.mcusPerRow &&
               ci < |s.comps|
      requires blkn0 + s.comps[ci].mcuHeight * s.comps[ci].mcuWidth <= C_MAX_BLOCKS_IN_MCU
      modifies mcuBuffer
      ensures blkn == blkn0 + s.comps[ci].mcuHeight * s.comps[ci].mcuWidth
      ensures mcuBuffer[..blkn] == old(mcuBuffer[..blkn0]) + RowsOf(f, s, img, ci, StartRow(f, s, imcuRowNum) +
                yoffset, mcol, s.comps[ci].mcuHeight)
    {
      hide StartRow, RowOf, EdgeBlock, BlocksIn, Members, DivRoundUp;
      ghost var mrow := StartRow(f, s, imcuRowNum) + yoffset;
      ghost var before := mcuBuffer[..blkn0];
      assert CompFits(f, s, ci);
      var w := s.comps[ci].mcuWidth;
      blkn := blkn0;
      for yindex := 0 to s.comps[ci].mcuHeight
        invariant blkn == blkn0 + yindex * w && blkn <= C_MAX_BLOCKS_IN_MCU &&
                  mcuBuffer[..blkn] == before + RowsOf(f, s, img, ci, mrow, mcol, yindex)
      {
        MulDistribute(yindex, 1, w);
        MulAtLeast(yindex + 1, s.comps[ci].mcuHeight, w);
        NextRow(ci, yoffset, yindex, mcol, blkn, before);
        blkn := blkn + w;
      }
    }

    method NextRow(ci: nat, yoffset: nat, yindex: nat, mcol: nat, blkn: nat, ghost before: seq<Block>)
      requires Shaped() && InScan(f, s, ci, imcuRowNum, yoffset, yindex) && mcol < s.mcusPerRow
      requires s.comps[ci].mcuWidth > 0 && blkn + s.comps[ci].mcuWidth <= C_MAX_BLOCKS_IN_MCU
      requires mcuBuffer[..blkn] == before + RowsOf(f, s, img, ci, StartRow(f, s, imcuRowNum) + yoffset, mcol, yindex)
      modifies mcuBuffer
      ensures mcuBuffer[..blkn + s.comps[ci].mcuWidth] == before + RowsOf(f, s, img, ci, StartRow(f, s, imcuRowNum) +
                yoffset, mcol, yindex + 1)
    {
      hide StartRow, RowsPer, EdgeBlock, RowOf, BlockOf, RowsOf;
      ghost var mrow := StartRow(f, s, imcuRowNum) + yoffset;
      if yindex > 0 { LastOfRows(f, s, img, ci, mrow, mcol, yindex, before); }
      BuildRow(ci, yoffset, yindex, mcol, blkn);
      Appended(before, RowsOf(f, s, img, ci, mrow, mcol, yindex), RowOf(f, s, img, ci, mrow, mcol, yindex));
      RowsNext(f, s, img, ci, mrow, mcol, yindex);
      assert mcuBuffer[..blkn + s.comps[ci].mcuWidth] == mcuBuffer[..blkn] +
               mcuBuffer[blkn..blkn + s.comps[ci].mcuWidth];
    }

    /** A row of blocks: DCT of the real ones, dummies behind them, or a row of dummies. */
    method BuildRow(ci: nat, yoffset: nat, yindex: nat, mcol: nat, blkn: nat)
      requires Shaped() && InScan(f, s, ci, imcuRowNum, yoffset, yindex) && mcol < s.mcusPerRow
      requires s.comps[ci].mcuWidth > 0 && blkn + s.comps[ci].mcuWidth <= C_MAX_BLOCKS_IN_MCU
      requires yindex > 0 ==>
                 blkn > 0 &&
                 mcuBuffer[blkn - 1] == BlockOf(f, s, img, ci, StartRow(f, s, imcuRowNum) + yoffset, mcol,
                   yindex - 1, s.comps[ci].mcuWidth - 1)
      modifies mcuBuffer
      ensures mcuBuffer[..blkn] == old(mcuBuffer[..blkn])
      ensures mcuBuffer[blkn..blkn + s.comps[ci].mcuWidth] == RowOf(f, s, img, ci, StartRow(f, s, imcuRowNum) +
                yoffset, mcol, yindex)
    {
      hide StartRow, RowsPer, EdgeBlock, RowOf, DummiesFrom, BlockOf, Members, BlocksIn, DivRoundUp;
      assert CompFits(f, s, ci);
      var sc := s.comps[ci];
      RealRow(f, s, ci, imcuRowNum, yoffset, yindex);
      if imcuRowNum < f.totalRows - 1 || yoffset + yindex < sc.lastRowHeight {
        RealBlocks(ci, yoffset, yindex, mcol, blkn);
      } else {
        NoRealPart(f, s, img, ci, imcuRowNum, yoffset, yindex, mcol);
        Dummies(blkn, 0, sc.mcuWidth, RowOf(f, s, img, ci, StartRow(f, s, imcuRowNum) + yoffset, mcol, yindex));
      }
    }

    method RealBlocks(ci: nat, yoffset: nat, yindex: nat, mcol: nat, blkn: nat)
      requires Shaped() && InScan(f, s, ci, imcuRowNum, yoffset, yindex) && mcol < s.mcusPerRow &&
               blkn + s.comps[ci].mcuWidth <= C_MAX_BLOCKS_IN_MCU
      requires RowNumber(f, s, ci, imcuRowNum, yoffset, yindex) < CompOf(f, s, ci).height
      modifies mcuBuffer
      ensures mcuBuffer[..blkn] == old(mcuBuffer[..blkn])
      ensures mcuBuffer[blkn..blkn + s.comps[ci].mcuWidth] == RowOf(f, s, img, ci, StartRow(f, s, imcuRowNum) +
                yoffset, mcol, yindex)
    {
      hide StartRow, RowsPer, EdgeBlock, RowOf, DummiesFrom, BlockOf, Members, BlocksIn, DivRoundUp, InputRow, CompFits;
      var sc := s.comps[ci];
      var blockcnt := if mcol < s.mcusPerRow - 1 then sc.mcuWidth else sc.lastColWidth;
      var col := mcol * sc.mcuWidth;
      RealPart(f, s, img, ci, imcuRowNum, yoffset, yindex, mcol, col, blockcnt);
      FillRow(InputRow(f, s, img, ci, imcuRowNum, yoffset, yindex), col, blockcnt, sc.mcuWidth, blkn,
        RowOf(f, s, img, ci, StartRow(f, s, imcuRowNum) + yoffset, mcol, yindex));
    }

    /** Real blocks, and dummies behind them. */
    method FillRow(row: seq<Block>, col: nat, n: nat, width: nat, blkn: nat, ghost target: seq<Block>)
      requires Shaped() && 0 < n <= width == |target| && blkn + width <= C_MAX_BLOCKS_IN_MCU && col + n <= |row|
      requires target[..n] == row[col..col + n] && DummiesFrom(target, n, target[n - 1][0])
      modifies mcuBuffer
      ensures mcuBuffer[..blkn] == old(mcuBuffer[..blkn])
      ensures mcuBuffer[blkn..blkn + width] == target
    {
      hide DummiesFrom;
      ForwardDct(row, col, n, blkn);
      assert mcuBuffer[blkn + n - 1] == mcuBuffer[blkn..blkn + n][n - 1] == target[..n][n - 1];
      Dummies(blkn, n, width, target);
    }

    /** forward_DCT for `n` blocks side by side; `row` is what it makes of a row of samples. */
    method ForwardDct(row: seq<Block>, col: nat, n: nat, blkn: nat)
      requires Shaped() && col + n <= |row| && blkn + n <= C_MAX_BLOCKS_IN_MCU
      modifies mcuBuffer
      ensures mcuBuffer[..blkn] == old(mcuBuffer[..blkn])
      ensures mcuBuffer[blkn..blkn + n] == row[col..col + n]
    {
      for x := 0 to n
        invariant mcuBuffer[..blkn] == old(mcuBuffer[..blkn]) && mcuBuffer[blkn..blkn + x] == row[col..col + x]
      {
        mcuBuffer[blkn + x] := row[col + x];
        assert mcuBuffer[blkn..blkn + x + 1] == mcuBuffer[blkn..blkn + x] + [row[col + x]];
        assert row[col..col + x + 1] == row[col..col + x] + [row[col + x]];
      }
    }

    /** Dummy blocks, each with the DC value of the block before it. */
    method Dummies(blkn: nat, from: nat, width: nat, ghost target: seq<Block>)
      requires Shaped() && from <= width == |target| && blkn + width <= C_MAX_BLOCKS_IN_MCU && blkn + from > 0
      requires mcuBuffer[blkn..blkn + from] == target[..from]
      requires DummiesFrom(target, from, mcuBuffer[blkn + from - 1][0])
      modifies mcuBuffer
      ensures mcuBuffer[..blkn] == old(mcuBuffer[..blkn]) && mcuBuffer[blkn..blkn + width] == target
    {
      ghost var dc := mcuBuffer[blkn + from - 1][0];
      for bi := from to width
        invariant mcuBuffer[..blkn] == old(mcuBuffer[..blkn]) && mcuBuffer[blkn + bi - 1][0] == dc &&
                  mcuBuffer[blkn..blkn + bi] == target[..bi]
      {
        mcuBuffer[blkn + bi] := DcOnly(mcuBuffer[blkn + bi - 1][0]);
        assert mcuBuffer[blkn..blkn + bi + 1] == mcuBuffer[blkn..blkn + bi] + [target[bi]];
      }
    }

    // ---- compress_first_pass: blocks into the virtual arrays

    lemma CompsKept(before: seq<seq<seq<Block>>>, after: seq<seq<seq<Block>>>, ci: nat, r: nat)
      requires ImageOk(f, img) && ci < |f.comps| && CompsIn(before, ci, r) && |before| == |after|
      requires forall i :: 0 <= i < |after| && i != ci ==> after[i] == before[i]
      requires RowsIn(after, ci, r, f.comps[ci].v)
      ensures CompsIn(after, ci + 1, r)
    {
      forall i: nat, b: nat | i <= ci && b < f.comps[i].v
        ensures LoadedIn(f, img, after, i, r, b)
      {
        if i < ci { assert LoadedIn(f, img, before, i, r, b); }
      }
    }

    lemma StillAllLoaded(before: seq<seq<seq<Block>>>, after: seq<seq<seq<Block>>>, n: nat)
      requires ImageOk(f, img) && SameUpTo(before, after, n) && AllIn(f, img, before, n)
      ensures AllIn(f, img, after, n)
    {
      forall r: nat | r < n
        ensures StripIn(f, img, after, r)
      {
        StillLoaded(before, after, n, r);
      }
    }

    /** The strip of this iMCU row, in every component, dummies included. */
    method LoadStrip()
      requires Shaped() && imcuRowNum < f.totalRows && ArraysOk()
      modifies `whole
      ensures ArraysOk() && StripLoaded(imcuRowNum) && SameAbove(old(whole))
    {
      hide DivRoundUp, CompFits, Members, BlocksIn, PlaneOk, CoefController.SameUpTo, LoadedIn;
      SameRefl(whole, imcuRowNum);
      for ci := 0 to |f.comps|
        invariant ArraysOk() && SameAbove(old(whole)) && CompsIn(whole, ci, imcuRowNum)
      {
        ghost var before := whole;
        LoadComp(ci);
        CompsKept(before, whole, ci, imcuRowNum);
        SameTrans(old(whole), before, whole, imcuRowNum);
      }
    }

    /** Rows of earlier strips are as they were. */
    predicate SameAbove(before: seq<seq<seq<Block>>>)
      requires ImageOk(f, img)
      reads `whole, `imcuRowNum
    {
      SameUpTo(before, whole, imcuRowNum)
    }

    predicate SameUpTo(before: seq<seq<seq<Block>>>, after: seq<seq<seq<Block>>>, n: nat)
    {
      |before| == |after| == |f.comps| &&
      forall i: nat :: i < |after| ==> |before[i]| == |after[i]| && n * f.comps[i].v <= |after[i]| &&
                                       after[i][..n * f.comps[i].v] == before[i][..n * f.comps[i].v]
    }

    lemma SameRefl(w: seq<seq<seq<Block>>>, n: nat)
      requires |w| == |f.comps| && n <= f.totalRows && forall i :: 0 <= i < |w| ==> |w[i]| == f.totalRows * f.comps[i].v
      ensures SameUpTo(w, w, n)
    {
      forall i: nat | i < |w|
        ensures n * f.comps[i].v <= |w[i]|
      {
        if f.comps[i].v > 0 { MulAtLeast(n, f.totalRows, f.comps[i].v); }
      }
    }

    lemma SameTrans(a: seq<seq<seq<Block>>>, b: seq<seq<seq<Block>>>, c: seq<seq<seq<Block>>>, n: nat)
      requires SameUpTo(a, b, n) && SameUpTo(b, c, n)
      ensures SameUpTo(a, c, n)
    {
    }

    lemma StillLoaded(before: seq<seq<seq<Block>>>, after: seq<seq<seq<Block>>>, n: nat, r: nat)
      requires ImageOk(f, img) && SameUpTo(before, after, n) && r < n && StripIn(f, img, before, r)
      ensures StripIn(f, img, after, r)
    {
      forall i: nat, b: nat | i < |f.comps| && b < f.comps[i].v
        ensures LoadedIn(f, img, after, i, r, b)
      {
        assert LoadedIn(f, img, before, i, r, b);
        var v := f.comps[i].v;
        MulAtLeast(r + 1, n, v);
        MulDistribute(r, 1, v);
        assert after[i][..n * v][r * v + b] == before[i][..n * v][r * v + b];
      }
    }

    /** The strip of one component. */
    method LoadComp(ci: nat)
      requires Shaped() && imcuRowNum < f.totalRows && ArraysOk() && ci < |f.comps|
      modifies `whole
      ensures ArraysOk() && SameAbove(old(whole)) && RowsIn(whole, ci, imcuRowNum, f.comps[ci].v)
      ensures forall i :: 0 <= i < |whole| && i != ci ==> whole[i] == old(whole)[i]
    {
      hide RowLoaded, DivRoundUp, CompFits, Members, BlocksIn, EdgeBlock, CoefController.SameUpTo, LoadedIn,
           CoefController.RealRows;
      var c := f.comps[ci];
      Sizes(f, c);
      var blockRows := CountRows(c);
      SameRefl(whole, imcuRowNum);
      for blockRow := 0 to c.v
        invariant ArraysOk() && SameAbove(old(whole)) && RowsIn(whole, ci, imcuRowNum, blockRow)
        invariant forall i :: 0 <= i < |whole| && i != ci ==> whole[i] == old(whole)[i]
      {
        ghost var before := whole;
        LoadRow(ci, blockRow, blockRows);
        SameTrans(old(whole), before, whole, imcuRowNum);
      }
    }

    /** Of strip `r` of a component, the first `n` rows. */
    predicate RowsIn(w: seq<seq<seq<Block>>>, ci: nat, r: nat, n: nat)
      requires ImageOk(f, img) && ci < |f.comps|
    {
      forall b: nat :: b < n ==> LoadedIn(f, img, w, ci, r, b)
    }

    /** How many rows of the strip are real. */
    predicate RealRows(c: Component, r: nat, blockRows: nat) {
      0 < blockRows <= c.v &&
      if r == f.totalRows - 1 then c.height == (f.totalRows - 1) * c.v + blockRows
      else blockRows == c.v && c.height > (f.totalRows - 1) * c.v
    }

    method CountRows(c: Component) returns (blockRows: nat)
      requires f.Ok() && f.CompOk(c) && imcuRowNum < f.totalRows
      ensures RealRows(c, imcuRowNum, blockRows)
    {
      Sizes(f, c);
      blockRows := c.v;
      if imcuRowNum == f.totalRows - 1 {
        blockRows := c.height % c.v;
        if blockRows == 0 { blockRows := c.v; }
        LastGroup(c.height, c.v, f.totalRows, blockRows);
      }
    }

    method LoadRow(ci: nat, blockRow: nat, blockRows: nat)
      requires Shaped() && imcuRowNum < f.totalRows && ArraysOk() && ci < |f.comps| && blockRow < f.comps[ci].v
      requires RealRows(f.comps[ci], imcuRowNum, blockRows) && RowsIn(whole, ci, imcuRowNum, blockRow)
      modifies `whole
      ensures ArraysOk() && SameAbove(old(whole)) && RowsIn(whole, ci, imcuRowNum, blockRow + 1)
      ensures forall i :: 0 <= i < |whole| && i != ci ==> whole[i] == old(whole)[i]
    {
      hide RowLoaded, DivRoundUp, CompFits, Members, BlocksIn, EdgeBlock, CoefController.SameUpTo, PaddedWidth, PlaneOk;
      var c := f.comps[ci];
      Sizes(f, c);
      var first: nat := imcuRowNum * c.v;
      var row: nat := first + blockRow;
      RowsFit(imcuRowNum, f.totalRows, c.v, c.height, blockRows);
      assert blockRow < blockRows <==> Inside(imcuRowNum, c.v, blockRow, c.height);
      var r;
      if blockRow < blockRows {
        r := RealRowBlocks(c, img[ci], row);
      } else {
        var above: nat := blockRow - 1;
        assert LoadedIn(f, img, whole, ci, imcuRowNum, above);
        r := DummyRowBlocks(c, img[ci], row, whole[ci][first + above]);
      }
      StoreRow(ci, blockRow, r);
    }

    /** One row of the strip. */
    method StoreRow(ci: nat, blockRow: nat, r: seq<Block>)
      requires Shaped() && imcuRowNum < f.totalRows && ArraysOk() && ci < |f.comps| && blockRow < f.comps[ci].v
      requires RowLoaded(f.comps[ci], img[ci], imcuRowNum * f.comps[ci].v + blockRow, r) &&
               RowsIn(whole, ci, imcuRowNum, blockRow)
      modifies `whole
      ensures ArraysOk() && SameAbove(old(whole)) && RowsIn(whole, ci, imcuRowNum, blockRow + 1)
      ensures forall i :: 0 <= i < |whole| && i != ci ==> whole[i] == old(whole)[i]
    {
      hide RowLoaded;
      ghost var before := whole;
      var row := imcuRowNum * f.comps[ci].v + blockRow;
      SameRefl(whole, imcuRowNum);
      MulAtLeast(imcuRowNum + 1, f.totalRows, f.comps[ci].v);
      MulDistribute(imcuRowNum, 1, f.comps[ci].v);
      whole := whole[ci := whole[ci][row := r]];
      forall b: nat | b <= blockRow
        ensures LoadedIn(f, img, whole, ci, imcuRowNum, b)
      {
        if b < blockRow { assert LoadedIn(f, img, before, ci, imcuRowNum, b); }
      }
    }

    predicate Inside(r: nat, v: nat, b: nat, height: nat) { r * v + b < height }

    lemma RowsFit(r: nat, total: nat, v: nat, height: nat, blockRows: nat)
      requires r < total && v > 0 && 0 < blockRows <= v
      requires if r == total - 1 then height == (total - 1) * v + blockRows
               else blockRows == v && height > (total - 1) * v
      ensures forall b: nat :: b < v ==> (b < blockRows <==> Inside(r, v, b, height))
    {
      if r < total - 1 {
        MulAtLeast(r + 1, total - 1, v);
        MulDistribute(r, 1, v);
      }
    }

    /** A row of real blocks, and the dummies at the right edge. */
    method RealRowBlocks(c: Component, p: Plane, row: nat) returns (r: seq<Block>)
      requires PlaneOk(c, p) && c.h > 0 && row < c.height
      ensures RowLoaded(c, p, row, r)
    {
      hide DivRoundUp;
      var blocksAcross := c.width;
      var ndummy := blocksAcross % c.h;
      if ndummy > 0 { ndummy := c.h - ndummy; }
      DummiesAre(c, ndummy);
      r := p[row];
      var lastDC := r[|r| - 1][0];
      for bi := 0 to ndummy
        invariant |r| == c.width + bi && r[..c.width] == p[row] &&
                  forall j :: c.width <= j < |r| ==> r[j] == DcOnly(lastDC)
      {
        r := r + [DcOnly(lastDC)];
      }
      RowIsLoaded(c, p, row, r, ndummy);
    }

    lemma RowIsLoaded(c: Component, p: Plane, row: nat, r: seq<Block>, ndummy: nat)
      requires PlaneOk(c, p) && c.h > 0 && row < c.height && |p[row]| == c.width > 0 && |r| == c.width + ndummy &&
               r[..c.width] == p[row]
      requires forall j :: c.width <= j < |r| ==> r[j] == DcOnly(p[row][c.width - 1][0])
      requires |r| == DivRoundUp(c.width, c.h) * c.h
      ensures RowLoaded(c, p, row, r)
    {
      hide DivRoundUp, DcOnly;
      forall col | 0 <= col < |r|
        ensures r[col] == EdgeBlock(c, p, row, col / c.h, c.h, col % c.h)
      {
        WholeColumn(col, c.h);
        if col < c.width { assert r[..c.width][col] == p[row][col]; }
      }
    }

    lemma WholeColumn(col: nat, h: nat)
      requires h > 0
      ensures col / h * h + col % h == col
    {
    }

    lemma DummiesAre(c: Component, ndummy: nat)
      requires c.h > 0 && c.width > 0 && ndummy == (if c.width % c.h == 0 then 0 else c.h - c.width % c.h)
      ensures c.width + ndummy == PaddedWidth(c)
    {
      var last := if c.width % c.h == 0 then c.h else c.width % c.h;
      LastGroup(c.width, c.h, DivRoundUp(c.width, c.h), last);
      MulDistribute(DivRoundUp(c.width, c.h), -1, c.h);
    }

    /** A row of dummies: each group repeats the last DC value of the group above. */
    method DummyRowBlocks(c: Component, p: Plane, row: nat, last: seq<Block>) returns (r: seq<Block>)
      requires PlaneOk(c, p) && c.h > 0 && row >= c.height && RowLoaded(c, p, row - 1, last)
      ensures RowLoaded(c, p, row, r)
    {
      r := [];
      var groups := DivRoundUp(c.width, c.h);
      var g := 0;
      while g < groups
        invariant g <= groups && |r| == g * c.h && GroupsLoaded(c, p, row, r)
      {
        MulAtLeast(g + 1, groups, c.h);
        MulDistribute(g, 1, c.h);
        var lastDC := last[g * c.h + c.h - 1][0];
        DivUnique(g * c.h + c.h - 1, c.h, g, c.h - 1);
        r := DummyGroup(c, p, row, r, g, lastDC);
        g := g + 1;
      }
    }

    predicate GroupsLoaded(c: Component, p: Plane, row: nat, r: seq<Block>)
      requires PlaneOk(c, p) && c.h > 0
    {
      forall col :: 0 <= col < |r| ==> r[col] == EdgeBlock(c, p, row, col / c.h, c.h, col % c.h)
    }

    method DummyGroup(c: Component, p: Plane, row: nat, r0: seq<Block>, g: nat, lastDC: int) returns (r: seq<Block>)
      requires PlaneOk(c, p) && c.h > 0 && row >= c.height && |r0| == g * c.h && GroupsLoaded(c, p, row, r0)
      requires lastDC == EdgeBlock(c, p, row - 1, g, c.h, c.h - 1)[0]
      ensures |r| == g * c.h + c.h && GroupsLoaded(c, p, row, r)
    {
      r := r0;
      for bi := 0 to c.h
        invariant |r| == g * c.h + bi && GroupsLoaded(c, p, row, r)
      {
        DivUnique(g * c.h + bi, c.h, g, bi);
        BelowRow(c, p, row, g, c.h, bi);
        r := r + [DcOnly(lastDC)];
      }
    }

    // ---- compress_output: pointers instead of blocks

    /** Block pointers for an MCU; the transcoder makes its dummies on the way. */
    method ListMcu(yoffset: nat, mcol: nat) returns (ptrs: seq<BlockPtr>)
      requires Shaped() && imcuRowNum < f.totalRows && yoffset < RowsPer(f, s, imcuRowNum) && mcol < s.mcusPerRow &&
               Prepared() && mode != PassThru
      modifies dummyBuffer
      ensures Prepared() && Listed(ptrs, McuAt(f, s, img, StartRow(f, s, imcuRowNum) + yoffset, mcol))
    {
      hide StartRow, RowsOf, RowsPer;
      ghost var mrow := StartRow(f, s, imcuRowNum) + yoffset;
      ptrs := [];
      for ci := 0 to |s.comps|
        invariant Prepared() && Listed(ptrs, CompsOf(f, s, img, mrow, mcol, ci))
      {
        BlocksGrow(s.comps, ci + 1, |s.comps|);
        ptrs := ListComp(ci, yoffset, mcol, ptrs, CompsOf(f, s, img, mrow, mcol, ci));
      }
    }

    method ListComp(ci: nat, yoffset: nat, mcol: nat, ptrs0: seq<BlockPtr>, ghost before: seq<Block>)
        returns (ptrs: seq<BlockPtr>)
      requires Shaped() && ci < |s.comps| && imcuRowNum < f.totalRows && yoffset < RowsPer(f, s, imcuRowNum) &&
               mcol < s.mcusPerRow && Prepared() && mode != PassThru
      requires Listed(ptrs0, before) && |before| + s.comps[ci].mcuHeight * s.comps[ci].mcuWidth <= C_MAX_BLOCKS_IN_MCU
      modifies dummyBuffer
      ensures Prepared() &&
              Listed(ptrs, before + RowsOf(f, s, img, ci, StartRow(f, s, imcuRowNum) + yoffset, mcol,
                s.comps[ci].mcuHeight))
    {
      hide StartRow, RowOf, EdgeBlock, BlocksIn, Members, DivRoundUp;
      ghost var mrow := StartRow(f, s, imcuRowNum) + yoffset;
      assert CompFits(f, s, ci);
      ptrs := ptrs0;
      assert before + [] == before;
      for yindex := 0 to s.comps[ci].mcuHeight
        invariant Prepared() && Listed(ptrs, before + RowsOf(f, s, img, ci, mrow, mcol, yindex))
      {
        MulDistribute(yindex, 1, s.comps[ci].mcuWidth);
        MulAtLeast(yindex + 1, s.comps[ci].mcuHeight, s.comps[ci].mcuWidth);
        ptrs := ListNext(ci, yoffset, yindex, mcol, ptrs, before);
      }
    }

    method ListNext(ci: nat, yoffset: nat, yindex: nat, mcol: nat, ptrs0: seq<BlockPtr>, ghost before: seq<Block>)
        returns (ptrs: seq<BlockPtr>)
      requires Shaped() && InScan(f, s, ci, imcuRowNum, yoffset, yindex) && mcol < s.mcusPerRow && Prepared() &&
               mode != PassThru
      requires s.comps[ci].mcuWidth > 0 &&
               |before| + yindex * s.comps[ci].mcuWidth + s.comps[ci].mcuWidth <= C_MAX_BLOCKS_IN_MCU
      requires Listed(ptrs0, before + RowsOf(f, s, img, ci, StartRow(f, s, imcuRowNum) + yoffset, mcol, yindex))
      modifies dummyBuffer
      ensures Prepared() &&
              Listed(ptrs, before + RowsOf(f, s, img, ci, StartRow(f, s, imcuRowNum) + yoffset, mcol, yindex + 1))
    {
      hide StartRow, RowOf, EdgeBlock, BlocksIn, Members, DivRoundUp, BlockOf, CompFits, RowsPer;
      ghost var mrow := StartRow(f, s, imcuRowNum) + yoffset;
      ghost var sofar := before + RowsOf(f, s, img, ci, mrow, mcol, yindex);
      if yindex > 0 { LastOfRows(f, s, img, ci, mrow, mcol, yindex, before); }
      ptrs := ListRow(ci, yoffset, yindex, mcol, ptrs0, sofar);
      Appended(before, RowsOf(f, s, img, ci, mrow, mcol, yindex), RowOf(f, s, img, ci, mrow, mcol, yindex));
    }

    /** A row of pointers. */
    method ListRow(ci: nat, yoffset: nat, yindex: nat, mcol: nat, ptrs0: seq<BlockPtr>, ghost before: seq<Block>)
        returns (ptrs: seq<BlockPtr>)
      requires Shaped() && InScan(f, s, ci, imcuRowNum, yoffset, yindex) && mcol < s.mcusPerRow && Prepared() &&
               mode != PassThru
      requires Listed(ptrs0, before) && s.comps[ci].mcuWidth > 0 &&
               |before| + s.comps[ci].mcuWidth <= C_MAX_BLOCKS_IN_MCU
      requires yindex > 0 ==>
                 |before| > 0 &&
                 before[|before| - 1] == BlockOf(f, s, img, ci, StartRow(f, s, imcuRowNum) + yoffset, mcol,
                   yindex - 1, s.comps[ci].mcuWidth - 1)
      modifies dummyBuffer
      ensures Prepared() &&
              Listed(ptrs, before + RowOf(f, s, img, ci, StartRow(f, s, imcuRowNum) + yoffset, mcol, yindex))
    {
      hide StartRow, RowsPer, EdgeBlock, BlocksIn, Members, DivRoundUp, RowOf, GivenIn, BlockOf;
      if mode == FromArrays {
        ghost var target := RowOf(f, s, img, ci, StartRow(f, s, imcuRowNum) + yoffset, mcol, yindex);
        ptrs := ListStored(ci, yoffset, yindex, mcol, s.comps[ci].mcuWidth, ptrs0, before, target);
        assert target[..s.comps[ci].mcuWidth] == target;
      } else {
        ptrs := ListTranscoded(ci, yoffset, yindex, mcol, ptrs0, before);
      }
    }

    /** The transcoder's row: pointers to real blocks, then dummies. */
    method ListTranscoded(ci: nat, yoffset: nat, yindex: nat, mcol: nat, ptrs0: seq<BlockPtr>,
        ghost before: seq<Block>) returns (ptrs: seq<BlockPtr>)
      requires Shaped() && InScan(f, s, ci, imcuRowNum, yoffset, yindex) && mcol < s.mcusPerRow && Given() &&
               DummiesBlank()
      requires Listed(ptrs0, before) && s.comps[ci].mcuWidth > 0 &&
               |before| + s.comps[ci].mcuWidth <= C_MAX_BLOCKS_IN_MCU
      requires yindex > 0 ==>
                 |before| > 0 &&
                 before[|before| - 1] == BlockOf(f, s, img, ci, StartRow(f, s, imcuRowNum) + yoffset, mcol,
                   yindex - 1, s.comps[ci].mcuWidth - 1)
      modifies dummyBuffer
      ensures Given() && DummiesBlank() &&
              Listed(ptrs, before + RowOf(f, s, img, ci, StartRow(f, s, imcuRowNum) + yoffset, mcol, yindex))
    {
      hide StartRow, RowsPer, EdgeBlock, BlocksIn, Members, DivRoundUp, RowOf, GivenIn, DummiesFrom, BlockOf;
      var sc := s.comps[ci];
      ghost var target := RowOf(f, s, img, ci, StartRow(f, s, imcuRowNum) + yoffset, mcol, yindex);
      assert before + target[..0] == before;
      RealRow(f, s, ci, imcuRowNum, yoffset, yindex);
      var blockcnt := 0;
      ptrs := ptrs0;
      if imcuRowNum < f.totalRows - 1 || yindex + yoffset < sc.lastRowHeight {
        blockcnt := if mcol < s.mcusPerRow - 1 then sc.mcuWidth else sc.lastColWidth;
        ptrs := ListReal(ci, yoffset, yindex, mcol, blockcnt, ptrs0, before, target);
      } else {
        NoRealPart(f, s, img, ci, imcuRowNum, yoffset, yindex, mcol);
      }
      ptrs := ListDummies(blockcnt, sc.mcuWidth, ptrs, before, target);
    }

    /** Pointers into an array that has been loaded with dummies and all. */
    method ListStored(ci: nat, yoffset: nat, yindex: nat, mcol: nat, n: nat, ptrs0: seq<BlockPtr>,
        ghost before: seq<Block>, ghost target: seq<Block>)
      returns (ptrs: seq<BlockPtr>)
      requires Shaped() && InScan(f, s, ci, imcuRowNum, yoffset, yindex) && mcol < s.mcusPerRow &&
               StripLoaded(imcuRowNum)
      requires Listed(ptrs0, before) && n == s.comps[ci].mcuWidth
      requires target == RowOf(f, s, img, ci, StartRow(f, s, imcuRowNum) + yoffset, mcol, yindex)
      ensures Listed(ptrs, before + target[..n])
    {
      hide StartRow, RowsPer, EdgeBlock, BlocksIn, Members, DivRoundUp;
      assert CompFits(f, s, ci);
      var index := s.comps[ci].index;
      var row := imcuRowNum * f.comps[index].v + (yoffset + yindex);
      BlockRow(f, s, ci, imcuRowNum, yoffset, yindex);
      assert LoadedIn(f, img, whole, index, imcuRowNum, yoffset + yindex);
      ptrs := ptrs0;
      assert before + target[..0] == before;
      for xindex := 0 to n
        invariant Listed(ptrs, before + target[..xindex])
      {
        StoredBlock(f, s, img, ci, imcuRowNum, yoffset, yindex, mcol, xindex, whole[index][row]);
        ptrs := Add(ptrs, Stored(index, row, mcol * n + xindex), before + target[..xindex], target[xindex]);
        assert before + target[..xindex] + [target[xindex]] == before + target[..xindex + 1];
      }
    }

    /** Pointers to real blocks. */
    method ListReal(ci: nat, yoffset: nat, yindex: nat, mcol: nat, n: nat, ptrs0: seq<BlockPtr>,
        ghost before: seq<Block>, ghost target: seq<Block>)
      returns (ptrs: seq<BlockPtr>)
      requires Shaped() && InScan(f, s, ci, imcuRowNum, yoffset, yindex) && mcol < s.mcusPerRow && Given()
      requires RowNumber(f, s, ci, imcuRowNum, yoffset, yindex) < CompOf(f, s, ci).height
      requires Listed(ptrs0, before) && n == RealColumns(s, ci, mcol)
      requires target == RowOf(f, s, img, ci, StartRow(f, s, imcuRowNum) + yoffset, mcol, yindex)
      ensures 0 < n <= |target| && Listed(ptrs, before + target[..n]) && DummiesFrom(target, n, target[n - 1][0])
    {
      hide StartRow, RowsPer, EdgeBlock, BlocksIn, Members, DivRoundUp, RowOf;
      assert CompFits(f, s, ci);
      var index := s.comps[ci].index;
      var row := imcuRowNum * f.comps[index].v + (yoffset + yindex);
      var col := mcol * s.comps[ci].mcuWidth;
      RealPart(f, s, img, ci, imcuRowNum, yoffset, yindex, mcol, col, n);
      ghost var source := InputRow(f, s, img, ci, imcuRowNum, yoffset, yindex);
      assert source == img[index][row] == whole[index][row][..f.comps[index].width];
      assert target[..n][n - 1] == source[col..col + n][n - 1];
      assert source[col..col + n] == target[..n];
      forall x: nat | x < n
        ensures target[x] == whole[index][row][col + x]
      {
        assert target[..n][x] == source[col..col + n][x];
      }
      ptrs := ListColumns(index, row, col, n, ptrs0, before, target);
    }

    /** Blocks of the whole image, side by side. */
    method ListColumns(index: nat, row: nat, col: nat, n: nat, ptrs0: seq<BlockPtr>, ghost before: seq<Block>,
        ghost target: seq<Block>)
      returns (ptrs: seq<BlockPtr>)
      requires index < |whole| && row < |whole[index]| && col + n <= |whole[index][row]| && n <= |target|
      requires Listed(ptrs0, before) && forall x: nat :: x < n ==> target[x] == whole[index][row][col + x]
      ensures Listed(ptrs, before + target[..n])
    {
      hide Listed;
      ptrs := ptrs0;
      assert before + target[..0] == before;
      for xindex := 0 to n
        invariant Listed(ptrs, before + target[..xindex])
      {
        ptrs := Add(ptrs, Stored(index, row, col + xindex), before + target[..xindex], target[xindex]);
        assert before + target[..xindex] + [target[xindex]] == before + target[..xindex + 1];
      }
    }

    method Add(ptrs: seq<BlockPtr>, q: BlockPtr, ghost before: seq<Block>, ghost b: Block)
        returns (ptrs': seq<BlockPtr>)
      requires Listed(ptrs, before) && Points(q, b) && (q.Work? ==> q.i == |ptrs|)
      ensures ptrs' == ptrs + [q] && Listed(ptrs', before + [b])
    {
      ptrs' := ptrs + [q];
    }

    /** Dummies of the work buffer, each given the DC value of the block before it. */
    method ListDummies(from: nat, width: nat, ptrs0: seq<BlockPtr>, ghost before: seq<Block>,
        ghost target: seq<Block>) returns (ptrs: seq<BlockPtr>)
      requires Shaped() && DummiesBlank() && Given() && from <= width == |target| &&
               |before| + width <= C_MAX_BLOCKS_IN_MCU && |before| + from > 0
      requires Listed(ptrs0, before + target[..from])
      requires DummiesFrom(target, from, (before + target[..from])[|before| + from - 1][0])
      modifies dummyBuffer
      ensures DummiesBlank() && Given() && Listed(ptrs, before + target)
    {
      hide Listed;
      ptrs := ptrs0;
      ghost var dc := (before + target[..from])[|before| + from - 1][0];
      for xindex := from to width
        invariant DummiesBlank() && Given() && Listed(ptrs, before + target[..xindex]) &&
                  (before + target[..xindex])[|before| + xindex - 1][0] == dc
      {
        ptrs := OneDummy(ptrs, before + target[..xindex]);
        assert before + target[..xindex] + [target[xindex]] == before + target[..xindex + 1];
      }
      assert target[..width] == target;
    }

    method OneDummy(ptrs: seq<BlockPtr>, ghost before: seq<Block>) returns (ptrs': seq<BlockPtr>)
      requires DummiesBlank() && Listed(ptrs, before) && 0 < |before| < dummyBuffer.Length
      modifies dummyBuffer
      ensures DummiesBlank() && Listed(ptrs', before + [DcOnly(before[|before| - 1][0])])
    {
      var blkn := |ptrs|;
      assert Points(ptrs[blkn - 1], before[blkn - 1]);
      var dc := Deref(ptrs[blkn - 1])[0];
      dummyBuffer[blkn] := dummyBuffer[blkn][0 := dc];
      assert dummyBuffer[blkn] == DcOnly(dc);
      forall j | 0 <= j < |ptrs|
        ensures Points(ptrs[j], before[j])
      {
      }
      ptrs' := ptrs + [Work(blkn)];
    }
  }

  predicate DummiesFrom(target: seq<Block>, from: nat, dc: int) {
    forall x :: from <= x < |target| ==> target[x] == DcOnly(dc)
  }

  /** The row of real blocks an MCU's row is cut from. */
  function InputRow(f: Frame, s: ScanSetup, img: seq<Plane>, k: nat, r: nat, yoffset: nat, y: nat): (row: seq<Block>)
    requires Ready(f, s, img) && k < |s.comps| && RowNumber(f, s, k, r, yoffset, y) < CompOf(f, s, k).height
    ensures |row| == CompOf(f, s, k).width
  {
    PlaneOf(f, s, img, k)[RowNumber(f, s, k, r, yoffset, y)]
  }

  /** A row of blocks inside the plane: real blocks, then dummies after the last of them. */
  lemma RealPart(f: Frame, s: ScanSetup, img: seq<Plane>, k: nat, r: nat, yoffset: nat, y: nat, mcol: nat, col: nat,
      n: nat)
    requires InScan(f, s, k, r, yoffset, y) && col == mcol * s.comps[k].mcuWidth && n == RealColumns(s, k, mcol)
    requires Ready(f, s, img) && InScan(f, s, k, r, yoffset, y) && mcol < s.mcusPerRow &&
             RowNumber(f, s, k, r, yoffset, y) < CompOf(f, s, k).height
    ensures 0 < n <= s.comps[k].mcuWidth && col + n <= CompOf(f, s, k).width
    ensures var row, target := InputRow(f, s, img, k, r, yoffset, y),
              RowOf(f, s, img, k, StartRow(f, s, r) + yoffset, mcol, y);
            target[..n] == row[col..col + n] && DummiesFrom(target, n, row[col + n - 1][0])
  {
    hide StartRow, RowsPer, Fits;
    RealColumnsAre(f, s, k, mcol);
    BlockRow(f, s, k, r, yoffset, y);
  }

  /** Below the plane: dummies after the last block of the row before. */
  lemma NoRealPart(f: Frame, s: ScanSetup, img: seq<Plane>, k: nat, r: nat, yoffset: nat, y: nat, mcol: nat)
    requires Ready(f, s, img) && InScan(f, s, k, r, yoffset, y) && mcol < s.mcusPerRow &&
             RowNumber(f, s, k, r, yoffset, y) >= CompOf(f, s, k).height
    ensures y > 0 && s.comps[k].mcuWidth > 0
    ensures var mrow, w := StartRow(f, s, r) + yoffset, s.comps[k].mcuWidth;
            DummiesFrom(RowOf(f, s, img, k, mrow, mcol, y), 0, BlockOf(f, s, img, k, mrow, mcol, y - 1, w - 1)[0])
  {
    hide StartRow, RowsPer, Fits, EdgeBlock;
    RealRow(f, s, k, r, yoffset, y);
    RealColumnsAre(f, s, k, mcol);
    BlockRow(f, s, k, r, yoffset, y);
    var target, w := RowOf(f, s, img, k, StartRow(f, s, r) + yoffset, mcol, y), s.comps[k].mcuWidth;
    forall x | 0 <= x < |target|
      ensures target[x] == DcOnly(BlockOf(f, s, img, k, StartRow(f, s, r) + yoffset, mcol, y - 1, w - 1)[0])
    {
      BelowRow(CompOf(f, s, k), PlaneOf(f, s, img, k), RowNumber(f, s, k, r, yoffset, y), mcol, w, x);
    }
  }

  lemma Appended(a: seq<Block>, b: seq<Block>, c: seq<Block>)
    ensures a + b + c == a + (b + c)
  {
  }

  /** The last block of the rows so far. */
  lemma LastOfRows(f: Frame, s: ScanSetup, img: seq<Plane>, k: nat, mrow: nat, mcol: nat, n: nat, before: seq<Block>)
    requires Ready(f, s, img) && k < |s.comps| && n > 0
    ensures var all := before + RowsOf(f, s, img, k, mrow, mcol, n);
            |all| > 0 && s.comps[k].mcuWidth > 0 &&
            all[|all| - 1] == BlockOf(f, s, img, k, mrow, mcol, n - 1, s.comps[k].mcuWidth - 1)
  {
    assert CompFits(f, s, k);
    InRows(f, s, img, k, mrow, mcol, n, n - 1, s.comps[k].mcuWidth - 1);
    MulDistribute(n - 1, 1, s.comps[k].mcuWidth);
  }

  // ---- whole passes

  /** An answer that lets every call complete an iMCU row. */
  ghost predicate NeverSuspends(accepts: nat -> bool)
  {
    forall k: nat :: accepts(k)
  }

  /** A controller in the middle of a pass, after `n` calls. */
  ghost predicate Serving(c: CoefController, mode: Mode, f: Frame, s: ScanSetup, img: seq<Plane>, sink: EntropySink,
      base: seq<seq<Block>>, n: nat)
    reads c, c.sink, c.sink.Below(), sink
  {
    c.Valid() && sink.kind.AnyCoder? && c.mode == mode && c.f == f && c.s == s && c.img == img && c.sink == sink &&
    c.base == base &&
    (NeverSuspends(sink.kind.accepts) ==> c.imcuRowNum == n)
  }

  /** Single-pass compression: up to `calls` calls, each of which may be cut short. */
  method SinglePassScan(f: Frame, s: ScanSetup, img: seq<Plane>, sink: EntropySink, calls: nat) returns (finished: bool)
    requires Ready(f, s, img) && sink.kind.AnyCoder? && sink.Valid()
    modifies sink
    ensures finished ==> sink.fed == old(sink.fed) + ScanMcus(f, s, img)
    ensures calls >= f.totalRows && NeverSuspends(sink.kind.accepts) ==> finished
  {
    hide StartRow, RowsPer, McusBefore, CompFits, Members, BlocksIn, DivRoundUp, PlaneOk, Standing;
    var c := new CoefController(PassThru, f, s, img, [], sink);
    var n: nat := 0;
    while n < calls && c.imcuRowNum < f.totalRows
      invariant fresh(c) && fresh(c.mcuBuffer) && fresh(c.dummyBuffer) && n <= calls &&
                Serving(c, PassThru, f, s, img, sink, old(sink.fed), n)
      decreases calls - n
    {
      var done := c.CompressData();
      n := n + 1;
    }
    finished := c.imcuRowNum == f.totalRows;
    if finished { AtEnd(c); }
  }

  /** A controller that has come to the last iMCU row stands at its beginning. */
  lemma AtEnd(c: CoefController)
    requires c.Valid() && c.imcuRowNum == c.f.totalRows
    ensures c.sink.fed == c.base + ScanMcus(c.f, c.s, c.img)
  {
    StandsAtEnd(c.f, c.s, c.img, c.sink.fed, c.base);
  }

  /** Full-buffer compression: a first pass that loads the arrays and sends one scan, and a pass
      that sends another from the arrays. */
  method FullBufferScans(f: Frame, s1: ScanSetup, s2: ScanSetup, img: seq<Plane>, whole: seq<seq<seq<Block>>>,
      sink: EntropySink, calls: nat)
    returns (finished: bool)
    requires Ready(f, s1, img) && Ready(f, s2, img) && sink.kind.AnyCoder? && sink.Valid() && |whole| == |f.comps| &&
             forall i :: 0 <= i < |whole| ==> |whole[i]| == f.totalRows * f.comps[i].v
    modifies sink
    ensures finished ==> sink.fed == old(sink.fed) + ScanMcus(f, s1, img) + ScanMcus(f, s2, img)
    ensures calls >= f.totalRows && NeverSuspends(sink.kind.accepts) ==> finished
  {
    hide StartRow, RowsPer, McusBefore, CompFits, Members, BlocksIn, DivRoundUp, PlaneOk, Standing;
    var c := new CoefController(FromArrays, f, s1, img, whole, sink);
    var n: nat := 0;
    while n < calls && c.imcuRowNum < f.totalRows
      invariant fresh(c) && fresh(c.mcuBuffer) && fresh(c.dummyBuffer) && n <= calls &&
                Serving(c, FromArrays, f, s1, img, sink, old(sink.fed), n)
      invariant c.ArraysOk() && AllIn(f, img, c.whole, c.imcuRowNum)
      decreases calls - n
    {
      var done := c.CompressFirstPass();
      n := n + 1;
    }
    finished := c.imcuRowNum == f.totalRows;
    if finished {
      AtEnd(c);
      finished := OutputScan(FromArrays, f, s2, img, c.whole, sink, calls);
    }
  }

  /** A pass from arrays: loaded by a first pass, or given to the transcoder. */
  method OutputScan(mode: Mode, f: Frame, s: ScanSetup, img: seq<Plane>, whole: seq<seq<seq<Block>>>,
      sink: EntropySink, calls: nat)
    returns (finished: bool)
    requires Ready(f, s, img) && sink.kind.AnyCoder? && sink.Valid() && mode != PassThru
    requires if mode == FromArrays then AllIn(f, img, whole, f.totalRows) else GivenIn(f, img, whole)
    modifies sink
    ensures finished ==> sink.fed == old(sink.fed) + ScanMcus(f, s, img)
    ensures calls >= f.totalRows && NeverSuspends(sink.kind.accepts) ==> finished
  {
    hide StartRow, RowsPer, McusBefore, CompFits, Members, BlocksIn, DivRoundUp, PlaneOk, Standing, LoadedIn;
    var c := new CoefController(mode, f, s, img, whole, sink);
    var n: nat := 0;
    while n < calls && c.imcuRowNum < f.totalRows
      invariant fresh(c) && fresh(c.mcuBuffer) && fresh(c.dummyBuffer) && n <= calls &&
                Serving(c, mode, f, s, img, sink, old(sink.fed), n)
      invariant if mode == FromArrays then c.whole == whole else c.Prepared()
      decreases calls - n
    {
      var done := c.CompressOutput();
      n := n + 1;
    }
    finished := c.imcuRowNum == f.totalRows;
    if finished { AtEnd(c); }
  }
}
