/**
 * Output sizes and DCT scalings of the decompressor (jdmaster.c), and the row groups that follow
 * from them (jdmainct.c): every component has the same number, in the last iMCU row as in the
 * whole image.
 */
module RowGroups {
  import opened Bits
  import opened ImageLayout
  import ContextRows

  /** A component after scaling: the size of its scaled DCT blocks, and its size in samples. */
  datatype Scaled = Scaled(size: nat, width: nat, height: nat)

  datatype Output = Output(width: nat, height: nat, minScaled: nat, comps: seq<Scaled>)

  /** The scaled size is chosen as large as the component's sampling allows, in doublings. */
  predicate BestSize(f: Frame, c: Component, m: nat, size: nat) {
    Doubling(m, size) && size <= DCTSIZE && Fitting(f, c, m, size) && (size < DCTSIZE ==> !Fitting(f, c, m, 2 * size))
  }

  predicate Fitting(f: Frame, c: Component, m: nat, size: nat) {
    c.h * size <= f.maxH * m && c.v * size <= f.maxV * m
  }

  predicate Doubling(m: nat, size: nat)
    decreases size
  {
    0 < m <= size && (size == m || (size % 2 == 0 && Doubling(m, size / 2)))
  }

  lemma {:induction false} DoublingIsMultiple(m: nat, size: nat)
    requires Doubling(m, size)
    ensures size % m == 0 && size / m >= 1 && size == size / m * m
    decreases size
  {
    if size == m {
      DivUnique(size, m, 1, 0);
    } else {
      DoublingIsMultiple(m, size / 2);
      var q := size / 2 / m;
      MulAssoc(2, q, m);
      DivUnique(size, m, 2 * q, 0);
    }
  }

  predicate OutputOk(f: Frame, out: Output)
    requires f.Ok()
  {
    out.minScaled in {1, 2, 4, 8} && out.width == DivRoundUp(f.width * out.minScaled, DCTSIZE) &&
    out.height == DivRoundUp(f.height * out.minScaled, DCTSIZE) &&
    |out.comps| == |f.comps| && forall i :: 0 <= i < |f.comps| ==> ScaledOk(f, out.minScaled, f.comps[i], out.comps[i])
  }

  predicate ScaledOk(f: Frame, m: nat, c: Component, x: Scaled)
    requires f.Ok()
  {
    m > 0 && BestSize(f, c, m, x.size) &&
    x.width == Samples(f.width, c.h * x.size, f.maxH) && x.height == Samples(f.height, c.v * x.size, f.maxV)
  }

  /** The samples of a component that has `part` for every `max` blocks' worth of `n` pixels. */
  function Samples(n: nat, part: nat, max: nat): nat
    requires max > 0
  {
    DivRoundUp(n * part, max * DCTSIZE)
  }

  /** An image cut by a power of two is the image at so many eighths. */
  lemma Eighths(n: nat, d: nat, m: nat)
    requires d * m == DCTSIZE && d in {1, 2, 4, 8}
    ensures DivRoundUp(n, d) == DivRoundUp(n * m, DCTSIZE)
  {
    match d {
      case 1 => Eighths1(n);
      case 2 => Eighths2(n);
      case 4 => Eighths4(n);
      case 8 =>
    }
  }

  lemma Eighths1(n: nat)
    ensures DivRoundUp(n, 1) == DivRoundUp(n * 8, 8)
  {
    if n > 0 { RoundUpIs(n * 8, 8, DivRoundUp(n, 1)); }
  }

  lemma Eighths2(n: nat)
    ensures DivRoundUp(n, 2) == DivRoundUp(n * 4, 8)
  {
    if n > 0 { RoundUpIs(n * 4, 8, DivRoundUp(n, 2)); }
  }

  lemma Eighths4(n: nat)
    ensures DivRoundUp(n, 4) == DivRoundUp(n * 2, 8)
  {
    if n > 0 { RoundUpIs(n * 2, 8, DivRoundUp(n, 4)); }
  }

  /** jpeg_calc_output_dimensions. */
  method CalcOutputDimensions(f: Frame, scaleNum: nat, scaleDenom: nat) returns (out: Output)
    requires f.Ok()
    ensures OutputOk(f, out)
    ensures out.minScaled == if scaleNum * 8 <= scaleDenom then 1 else if scaleNum * 4 <= scaleDenom then 2
              else if scaleNum * 2 <= scaleDenom then 4 else 8
  {
    var width, height, m;
    if scaleNum * 8 <= scaleDenom {
      width, height, m := DivRoundUp(f.width, 8), DivRoundUp(f.height, 8), 1;
      Eighths(f.width, 8, 1);
      Eighths(f.height, 8, 1);
    } else if scaleNum * 4 <= scaleDenom {
      width, height, m := DivRoundUp(f.width, 4), DivRoundUp(f.height, 4), 2;
      Eighths(f.width, 4, 2);
      Eighths(f.height, 4, 2);
    } else if scaleNum * 2 <= scaleDenom {
      width, height, m := DivRoundUp(f.width, 2), DivRoundUp(f.height, 2), 4;
      Eighths(f.width, 2, 4);
      Eighths(f.height, 2, 4);
    } else {
      width, height, m := f.width, f.height, 8;
      WholeSize(f.width);
      WholeSize(f.height);
    }
    out := Output(width, height, m, []);
    for ci := 0 to |f.comps|
      invariant out == Output(width, height, m, out.comps) && |out.comps| == ci &&
                forall i :: 0 <= i < ci ==> ScaledOk(f, m, f.comps[i], out.comps[i])
    {
      var size := ScaledSize(f, f.comps[ci], m);
      var x := Scaled(size, DivRoundUp(f.width * (f.comps[ci].h * size), f.maxH * DCTSIZE),
          DivRoundUp(f.height * (f.comps[ci].v * size), f.maxV * DCTSIZE));
      out := out.(comps := out.comps + [x]);
    }
  }

  lemma WholeSize(n: nat)
    ensures n == DivRoundUp(n * 8, DCTSIZE)
  {
    if n > 0 { RoundUpIs(n * 8, 8, n); }
  }

  /** The DCT scaling of one component. */
  method ScaledSize(f: Frame, c: Component, m: nat) returns (ssize: nat)
    requires f.Ok() && f.CompOk(c) && m in {1, 2, 4, 8}
    ensures BestSize(f, c, m, ssize)
  {
    ssize := m;
    MulAtLeast(c.h, f.maxH, m);
    MulAtLeast(c.v, f.maxV, m);
    while ssize < DCTSIZE && c.h * ssize * 2 <= f.maxH * m && c.v * ssize * 2 <= f.maxV * m
      invariant Doubling(m, ssize) && ssize <= DCTSIZE && Fitting(f, c, m, ssize) && ssize in {1, 2, 4, 8}
      decreases DCTSIZE - ssize
    {
      MulAssoc(c.h, ssize, 2);
      MulAssoc(c.v, ssize, 2);
      ssize := ssize * 2;
    }
    MulAssoc(c.h, ssize, 2);
    MulAssoc(c.v, ssize, 2);
  }

  // ---- row groups

  /** Sample rows in a row group of the component. */
  function GroupRows(c: Component, m: nat, x: Scaled): nat
    requires m > 0
  {
    c.v * x.size / m
  }

  /** The number of row groups of an image: the output rows, in groups of max_v_samp_factor. */
  function ImageGroups(f: Frame, out: Output): nat
    requires f.Ok()
  {
    DivRoundUp(out.height, f.maxV)
  }

  lemma MultipleOf(v: nat, size: nat, m: nat)
    requires v > 0 && m > 0 && size / m >= 1 && size == size / m * m
    ensures v * size / m >= 1 && v * size == v * size / m * m && v * size >= 1
  {
    var q := size / m;
    MulAssoc(v, q, m);
    MulAtLeast(1, v, q);
    MulAtLeast(1, v * q, m);
    DivUnique(v * size, m, v * q, 0);
  }

  lemma GroupRowsAre(f: Frame, m: nat, c: Component, x: Scaled)
    requires f.Ok() && f.CompOk(c) && ScaledOk(f, m, c, x)
    ensures GroupRows(c, m, x) >= 1 && c.v * x.size == GroupRows(c, m, x) * m && c.v * x.size > 0
  {
    hide Samples, Fitting;
    DoublingIsMultiple(m, x.size);
    MultipleOf(c.v, x.size, m);
  }

  /** The component's rows, in row groups, are the image's row groups, whatever its sampling. */
  lemma SameGroups(f: Frame, out: Output, i: nat)
    requires f.Ok() && OutputOk(f, out) && i < |f.comps|
    ensures GroupRows(f.comps[i], out.minScaled, out.comps[i]) >= 1
    ensures DivRoundUp(out.comps[i].height, GroupRows(f.comps[i], out.minScaled, out.comps[i])) == ImageGroups(f, out)
  {
    var c, x, m := f.comps[i], out.comps[i], out.minScaled;
    GroupRowsAre(f, m, c, x);
    var rg := GroupRows(c, m, x);
    MulAtLeast(1, f.height, m);
    Shuffle(f.height, rg, m);
    NestedCeiling(f.height * m, rg, f.maxV);
    CeilingInTwo(f.height * m, DCTSIZE, f.maxV);
  }

  lemma Shuffle(a: nat, b: nat, c: nat)
    ensures a * (b * c) == (a * c) * b
  {
    MulAssoc(a, b, c);
    Commute(a, b, c);
  }

  /** Rounding up twice is rounding up once. */
  lemma CeilingInTwo(n: nat, a: nat, b: nat)
    requires n > 0 && a > 0 && b > 0
    ensures b * a > 0 && DivRoundUp(DivRoundUp(n, a), b) == DivRoundUp(n, b * a)
  {
    MulAtLeast(1, b, a);
    var p := DivRoundUp(n, a);
    var q := DivRoundUp(p, b);
    MulAssoc(q, b, a);
    MulAtLeast(p, q * b, a);
    MulAssoc(q - 1, b, a);
    MulAtLeast((q - 1) * b, p - 1, a);
    RoundUpIs(n, b * a, q);
  }

  /** The iMCU rows of the component. */
  lemma SameImcuRows(f: Frame, out: Output, i: nat)
    requires f.Ok() && OutputOk(f, out) && i < |f.comps|
    ensures f.comps[i].v * out.comps[i].size > 0 && out.comps[i].height > 0
    ensures DivRoundUp(out.comps[i].height, f.comps[i].v * out.comps[i].size) == f.totalRows
  {
    var c, x := f.comps[i], out.comps[i];
    GroupRowsAre(f, out.minScaled, c, x);
    MulAtLeast(1, GroupRows(c, out.minScaled, x), out.minScaled);
    NestedCeiling(f.height, c.v * x.size, f.maxV);
    MulAtLeast(1, f.height, c.v * x.size);
  }

  /** What set_bottom_pointers counts for one component. */
  method CountRowGroups(c: Component, m: nat, x: Scaled) returns (rowgroupsAvail: nat)
    requires m > 0 && c.v * x.size > 0 && c.v * x.size / m > 0
    ensures rowgroupsAvail == (LastRows(x.height, c.v * x.size) - 1) / GroupRows(c, m, x) + 1
  {
    var imcuHeight := c.v * x.size;
    var rgroup := imcuHeight / m;
    var rowsLeft := x.height % imcuHeight;
    if rowsLeft == 0 { rowsLeft := imcuHeight; }
    rowgroupsAvail := (rowsLeft - 1) / rgroup + 1;
  }

  function LastRows(height: nat, imcuHeight: nat): (r: nat)
    requires imcuHeight > 0
    ensures 0 < r <= imcuHeight
  {
    if height % imcuHeight == 0 then imcuHeight else height % imcuHeight
  }

  /** The counted row groups of the last iMCU row. */
  function Counted(c: Component, m: nat, x: Scaled): (n: nat)
    requires m > 0 && c.v * x.size > 0 && c.v * x.size / m > 0
  {
    (LastRows(x.height, c.v * x.size) - 1) / GroupRows(c, m, x) + 1
  }

  /** Every component gives the same count, and with the iMCU rows before it makes up the row
      groups of the image. */
  lemma CountsAgree(f: Frame, out: Output, i: nat)
    requires f.Ok() && OutputOk(f, out) && i < |f.comps|
    ensures f.comps[i].v * out.comps[i].size > 0 && f.comps[i].v * out.comps[i].size / out.minScaled > 0
    ensures (f.totalRows - 1) * out.minScaled + Counted(f.comps[i], out.minScaled, out.comps[i]) == ImageGroups(f, out)
    ensures 1 <= Counted(f.comps[i], out.minScaled, out.comps[i]) <= out.minScaled
  {
    hide Samples, Fitting, BestSize, DivRoundUp, ImageGroups, LastRows;
    var c, x, m := f.comps[i], out.comps[i], out.minScaled;
    GroupRowsAre(f, m, c, x);
    SameImcuRows(f, out, i);
    SameGroups(f, out, i);
    CountsOf(x.height, c.v * x.size, GroupRows(c, m, x), m, f.totalRows);
  }

  lemma CountsOf(height: nat, b: nat, rg: nat, m: nat, total: nat)
    requires height > 0 && rg > 0 && m > 0 && b == rg * m > 0 && total == DivRoundUp(height, b)
    ensures (total - 1) * m + ((LastRows(height, b) - 1) / rg + 1) == DivRoundUp(height, rg) &&
            1 <= (LastRows(height, b) - 1) / rg + 1 <= m
  {
    hide DivRoundUp;
    LastGroup(height, b, total, LastRows(height, b));
    GroupsOf(height, rg, m, total, LastRows(height, b));
  }

  lemma GroupsOf(height: nat, rg: nat, m: nat, total: nat, left: nat)
    requires rg > 0 && m > 0 && total > 0 && 0 < left <= rg * m && height == (total - 1) * (rg * m) + left
    ensures (total - 1) * m + ((left - 1) / rg + 1) == DivRoundUp(height, rg) && (left - 1) / rg + 1 <= m
  {
    var q := (left - 1) / rg;
    assert left - 1 == rg * q + (left - 1) % rg;
    MulDistribute(q, 1, rg);
    if q >= m { MulAtLeast(m, q, rg); }
    var a := (total - 1) * m;
    Shuffle(total - 1, rg, m);
    MulDistribute(a, q + 1, rg);
    MulDistribute(a, q, rg);
    MulAtLeast(0, a, rg);
    RoundUpIs(height, rg, a + q + 1);
  }

  /** The shape the context buffer of a component has, and its counts, in the terms of that module. */
  lemma ShapeAgrees(f: Frame, out: Output, i: nat)
    requires f.Ok() && OutputOk(f, out) && i < |f.comps| && out.minScaled >= 2
    ensures var c, x := f.comps[i], out.comps[i];
            var sh := ContextRows.Shape(GroupRows(c, out.minScaled, x), out.minScaled, c.v * x.size, x.height,
                f.totalRows);
            sh.Ok() && sh.Groups() == ImageGroups(f, out)
  {
    hide Samples, Fitting, BestSize, DivRoundUp, ImageGroups;
    var c, x, m := f.comps[i], out.comps[i], out.minScaled;
    GroupRowsAre(f, m, c, x);
    SameImcuRows(f, out, i);
    SameGroups(f, out, i);
    ShapeOf(GroupRows(c, m, x), m, c.v * x.size, x.height, f.totalRows);
  }

  lemma ShapeOf(rg: nat, m: nat, b: nat, height: nat, total: nat)
    requires height > 0 && rg > 0 && m >= 2 && b == rg * m > 0 && total == DivRoundUp(height, b)
    ensures var sh := ContextRows.Shape(rg, m, b, height, total);
            sh.Ok() && sh.Groups() == DivRoundUp(height, rg)
  {
    MulAtLeast(2, m, rg);
    CountsOf(height, b, rg, m, total);
    LastGroup(height, b, total, LastRows(height, b));
    MulDistribute(total, -1, b);
  }
}
