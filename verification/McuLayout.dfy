/**
 * The MCUs of a scan: real blocks where the image has them, and dummies with the DC value of the
 * last real block before them where it does not (jccoefct.c, jctrans.c).
 */
module McuLayout {
  import opened Bits
  import opened ImageLayout
  import opened Zigzag

  /** The blocks of a component, row by row. */
  type Plane = seq<seq<Block>>

  predicate PlaneOk(c: Component, p: Plane) {
    c.width > 0 && c.height > 0 && |p| == c.height && forall row :: 0 <= row < c.height ==> |p[row]| == c.width
  }

  predicate ImageOk(f: Frame, img: seq<Plane>) {
    |img| == |f.comps| && forall i :: 0 <= i < |img| ==> PlaneOk(f.comps[i], img[i])
  }

  /** A dummy block: a DC value and zeros. */
  function DcOnly(v: int): Block {
    seq(64, k => if k == 0 then v else 0)
  }

  /** Block `x` of group `g` of a row, in groups of `w`. Outside the component it repeats the DC
      value of the nearest real block before it in its MCU: to the right of the plane the last of
      the row, below it the last in the group's last real row. */
  function EdgeBlock(c: Component, p: Plane, row: nat, g: nat, w: nat, x: nat): Block
    requires PlaneOk(c, p)
  {
    var col := g * w + x;
    if row < c.height then
      if col < c.width then p[row][col] else DcOnly(p[row][c.width - 1][0])
    else
      var last := g * w + w - 1;
      DcOnly(p[c.height - 1][if 0 <= last < c.width then last else c.width - 1][0])
  }

  /** Below the plane a dummy takes its DC value from the end of the row above in its group. */
  lemma BelowRow(c: Component, p: Plane, row: nat, g: nat, w: nat, x: nat)
    requires PlaneOk(c, p) && row >= c.height && x < w
    ensures EdgeBlock(c, p, row, g, w, x) == DcOnly(EdgeBlock(c, p, row - 1, g, w, w - 1)[0])
  {
  }

  /** A dummy has no AC coefficients, and its DC coefficient is that of a block of the image: the last of
      its row, or below the image the last that its group has in the last row. */
  lemma DummyIsBare(c: Component, p: Plane, row: nat, g: nat, w: nat, x: nat)
    requires PlaneOk(c, p) && x < w && (row >= c.height || g * w + x >= c.width)
    ensures forall k :: 0 < k < 64 ==> EdgeBlock(c, p, row, g, w, x)[k] == 0
    ensures row < c.height ==> EdgeBlock(c, p, row, g, w, x)[0] == p[row][c.width - 1][0]
    ensures row >= c.height && g * w + w <= c.width ==>
              g * w + w >= 1 && EdgeBlock(c, p, row, g, w, x)[0] == p[c.height - 1][g * w + w - 1][0]
    ensures row >= c.height && g * w + w > c.width ==>
              EdgeBlock(c, p, row, g, w, x)[0] == p[c.height - 1][c.width - 1][0]
  {
    MulAtLeast(0, g, w);
  }

  predicate Ready(f: Frame, s: ScanSetup, img: seq<Plane>) {
    Fits(f, s) && ImageOk(f, img)
  }

  function CompOf(f: Frame, s: ScanSetup, k: nat): Component
    requires Fits(f, s) && k < |s.comps|
  {
    assert CompFits(f, s, k);
    f.comps[s.comps[k].index]
  }

  function PlaneOf(f: Frame, s: ScanSetup, img: seq<Plane>, k: nat): (p: Plane)
    requires Ready(f, s, img) && k < |s.comps|
    ensures PlaneOk(CompOf(f, s, k), p)
  {
    assert CompFits(f, s, k);
    img[s.comps[k].index]
  }

  /** Block (y, x) of component `k` in the MCU at (mrow, mcol). */
  function BlockOf(f: Frame, s: ScanSetup, img: seq<Plane>, k: nat, mrow: nat, mcol: nat, y: nat, x: nat): Block
    requires Ready(f, s, img) && k < |s.comps|
  {
    EdgeBlock(CompOf(f, s, k), PlaneOf(f, s, img, k), mrow * s.comps[k].mcuHeight + y, mcol, s.comps[k].mcuWidth, x)
  }

  /** A row of an MCU's blocks of one component, its first `n` rows, and the first `n` components. */
  function RowOf(f: Frame, s: ScanSetup, img: seq<Plane>, k: nat, mrow: nat, mcol: nat, y: nat): (r: seq<Block>)
    requires Ready(f, s, img) && k < |s.comps|
    ensures |r| == s.comps[k].mcuWidth
  {
    seq(s.comps[k].mcuWidth, x requires 0 <= x < s.comps[k].mcuWidth => BlockOf(f, s, img, k, mrow, mcol, y, x))
  }

  function RowsOf(f: Frame, s: ScanSetup, img: seq<Plane>, k: nat, mrow: nat, mcol: nat, n: nat): (r: seq<Block>)
    requires Ready(f, s, img) && k < |s.comps|
    ensures |r| == n * s.comps[k].mcuWidth
  {
    if n == 0 then [] else
      MulDistribute(n - 1, 1, s.comps[k].mcuWidth);
      RowsOf(f, s, img, k, mrow, mcol, n - 1) + RowOf(f, s, img, k, mrow, mcol, n - 1)
  }

  lemma RowsNext(f: Frame, s: ScanSetup, img: seq<Plane>, k: nat, mrow: nat, mcol: nat, n: nat)
    requires Ready(f, s, img) && k < |s.comps|
    ensures RowsOf(f, s, img, k, mrow, mcol, n + 1) == RowsOf(f, s, img, k, mrow, mcol, n) +
              RowOf(f, s, img, k, mrow, mcol, n)
  {
    hide RowOf;
  }

  function CompsOf(f: Frame, s: ScanSetup, img: seq<Plane>, mrow: nat, mcol: nat, n: nat): (r: seq<Block>)
    requires Ready(f, s, img) && n <= |s.comps|
    ensures |r| == BlocksIn(s.comps, n)
  {
    if n == 0 then []
    else CompsOf(f, s, img, mrow, mcol, n - 1) + RowsOf(f, s, img, n - 1, mrow, mcol, s.comps[n - 1].mcuHeight)
  }

  function McuAt(f: Frame, s: ScanSetup, img: seq<Plane>, mrow: nat, mcol: nat): (mcu: seq<Block>)
    requires Ready(f, s, img)
    ensures |mcu| == |s.membership|
  {
    CompsOf(f, s, img, mrow, mcol, |s.comps|)
  }

  // ---- the scan, MCU by MCU

  /** The first `n` MCUs of MCU row `m`, and all MCUs of the first `m` rows. */
  function RowMcus(f: Frame, s: ScanSetup, img: seq<Plane>, m: nat, n: nat): seq<seq<Block>>
    requires Ready(f, s, img)
  {
    if n == 0 then [] else RowMcus(f, s, img, m, n - 1) + [McuAt(f, s, img, m, n - 1)]
  }

  function RowsMcus(f: Frame, s: ScanSetup, img: seq<Plane>, m: nat): seq<seq<Block>>
    requires Ready(f, s, img)
  {
    if m == 0 then [] else RowsMcus(f, s, img, m - 1) + RowMcus(f, s, img, m - 1, s.mcusPerRow)
  }

  /** Every MCU before the one at (m, n). */
  function McusBefore(f: Frame, s: ScanSetup, img: seq<Plane>, m: nat, n: nat): seq<seq<Block>>
    requires Ready(f, s, img)
  {
    RowsMcus(f, s, img, m) + RowMcus(f, s, img, m, n)
  }

  /** The whole scan. */
  function ScanMcus(f: Frame, s: ScanSetup, img: seq<Plane>): seq<seq<Block>>
    requires Ready(f, s, img)
  {
    RowsMcus(f, s, img, s.mcuRows)
  }

  lemma OneMoreMcu(f: Frame, s: ScanSetup, img: seq<Plane>, m: nat, n: nat)
    requires Ready(f, s, img)
    ensures McusBefore(f, s, img, m, n + 1) == McusBefore(f, s, img, m, n) + [McuAt(f, s, img, m, n)]
  {
  }

  lemma RowComplete(f: Frame, s: ScanSetup, img: seq<Plane>, m: nat)
    requires Ready(f, s, img)
    ensures McusBefore(f, s, img, m, s.mcusPerRow) == McusBefore(f, s, img, m + 1, 0)
  {
  }

  // ---- every real block is in exactly one place

  predicate Place(s: ScanSetup, k: nat, mrow: nat, mcol: nat, y: nat, x: nat)
    requires k < |s.comps|
  {
    mrow < s.mcuRows && mcol < s.mcusPerRow && y < s.comps[k].mcuHeight && x < s.comps[k].mcuWidth
  }

  /** The block at (row, col) of a component has a place in the scan ... */
  lemma BlockHasPlace(f: Frame, s: ScanSetup, img: seq<Plane>, k: nat, row: nat, col: nat)
      returns (mrow: nat, mcol: nat, y: nat, x: nat)
    requires Ready(f, s, img) && k < |s.comps| && row < CompOf(f, s, k).height && col < CompOf(f, s, k).width
    ensures Place(s, k, mrow, mcol, y, x) && mrow * s.comps[k].mcuHeight + y == row &&
            mcol * s.comps[k].mcuWidth + x == col
    ensures BlockOf(f, s, img, k, mrow, mcol, y, x) == PlaneOf(f, s, img, k)[row][col]
  {
    assert CompFits(f, s, k);
    var sc, c := s.comps[k], CompOf(f, s, k);
    mrow, y := Quotient(row, sc.mcuHeight);
    mcol, x := Quotient(col, sc.mcuWidth);
    if mcol >= s.mcusPerRow {
      MulAtLeast(s.mcusPerRow, mcol, sc.mcuWidth);
      MulDistribute(s.mcusPerRow, -1, sc.mcuWidth);
    }
    if |s.comps| > 1 && mrow >= s.mcuRows {
      MulAtLeast(s.mcuRows, mrow, c.v);
      MulDistribute(s.mcuRows, -1, c.v);
    }
  }

  lemma Quotient(n: nat, d: nat) returns (q: nat, r: nat)
    requires d > 0
    ensures q * d + r == n && r < d
  {
    q, r := n / d, n % d;
    assert n == d * q + r;
  }

  /** ... and only one. */
  lemma OnlyPlace(s: ScanSetup, k: nat, mrow: nat, mcol: nat, y: nat, x: nat, mrow': nat, mcol': nat, y': nat, x': nat)
    requires k < |s.comps| && Place(s, k, mrow, mcol, y, x) && Place(s, k, mrow', mcol', y', x')
    requires mrow * s.comps[k].mcuHeight + y == mrow' * s.comps[k].mcuHeight + y'
    requires mcol * s.comps[k].mcuWidth + x == mcol' * s.comps[k].mcuWidth + x'
    ensures mrow == mrow' && mcol == mcol' && y == y' && x == x'
  {
    SameQuotient(mrow, y, mrow', y', s.comps[k].mcuHeight);
    SameQuotient(mcol, x, mcol', x', s.comps[k].mcuWidth);
  }

  lemma SameQuotient(q: nat, r: nat, q': nat, r': nat, d: nat)
    requires r < d && r' < d && q * d + r == q' * d + r'
    ensures q == q' && r == r'
  {
    DivUnique(q * d + r, d, q, r);
    DivUnique(q * d + r, d, q', r');
  }

  /** Where a block lies within its MCU. */
  lemma {:induction false} InRows(f: Frame, s: ScanSetup, img: seq<Plane>, k: nat, mrow: nat, mcol: nat, n: nat,
      y: nat, x: nat)
    requires Ready(f, s, img) && k < |s.comps| && y < n && x < s.comps[k].mcuWidth
    ensures 0 <= y * s.comps[k].mcuWidth + x < n * s.comps[k].mcuWidth
    ensures RowsOf(f, s, img, k, mrow, mcol, n)[y * s.comps[k].mcuWidth + x] == BlockOf(f, s, img, k, mrow, mcol, y, x)
  {
    var w := s.comps[k].mcuWidth;
    MulDistribute(n - 1, 1, w);
    if y < n - 1 { InRows(f, s, img, k, mrow, mcol, n - 1, y, x); }
  }

  lemma {:induction false} InComps(f: Frame, s: ScanSetup, img: seq<Plane>, mrow: nat, mcol: nat, n: nat, k: nat,
      j: nat)
    requires Ready(f, s, img) && k < n <= |s.comps| && j < s.comps[k].mcuHeight * s.comps[k].mcuWidth
    ensures BlocksIn(s.comps, k) + j < BlocksIn(s.comps, n)
    ensures CompsOf(f, s, img, mrow, mcol, n)[BlocksIn(s.comps, k) + j] == RowsOf(f, s, img, k, mrow, mcol,
              s.comps[k].mcuHeight)[j]
  {
    if k < n - 1 {
      InComps(f, s, img, mrow, mcol, n - 1, k, j);
      MulAtLeast(0, s.comps[n - 1].mcuHeight, if s.comps[n - 1].mcuWidth == 0 then 1 else s.comps[n - 1].mcuWidth);
    }
  }

  /** A block of the MCU at (mrow, mcol), and the component the coder is told it belongs to. */
  lemma McuHolds(f: Frame, s: ScanSetup, img: seq<Plane>, k: nat, mrow: nat, mcol: nat, y: nat, x: nat) returns (b: nat)
    requires Ready(f, s, img) && k < |s.comps| && y < s.comps[k].mcuHeight && x < s.comps[k].mcuWidth
    ensures b == BlocksIn(s.comps, k) + y * s.comps[k].mcuWidth + x < |s.membership| && s.membership[b] == k
    ensures McuAt(f, s, img, mrow, mcol)[b] == BlockOf(f, s, img, k, mrow, mcol, y, x)
  {
    hide EdgeBlock, RowsOf, Members, CompFits;
    var j := y * s.comps[k].mcuWidth + x;
    InRows(f, s, img, k, mrow, mcol, s.comps[k].mcuHeight, y, x);
    InComps(f, s, img, mrow, mcol, |s.comps|, k, j);
    b := BlocksIn(s.comps, k) + j;
    MemberIs(f, s, k, b);
  }

  lemma MemberIs(f: Frame, s: ScanSetup, k: nat, b: nat)
    requires Fits(f, s) && k < |s.comps| && BlocksIn(s.comps, k) <= b < BlocksIn(s.comps, k + 1)
    ensures b < |s.membership| && s.membership[b] == k
  {
    hide DivRoundUp, CompFits;
    BlocksGrow(s.comps, k + 1, |s.comps|);
    var k' := s.membership[b];
    if k' < k { BlocksGrow(s.comps, k' + 1, k); }
    if k' > k { BlocksGrow(s.comps, k + 1, k'); }
  }

  lemma {:induction false} BlocksGrow(comps: seq<ScanComp>, i: nat, j: nat)
    requires i <= j <= |comps|
    ensures BlocksIn(comps, i) <= BlocksIn(comps, j)
    decreases j
  {
    if i < j { BlocksGrow(comps, i, j - 1); }
  }
}
