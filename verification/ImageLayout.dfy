/**
 * How an image is cut into blocks and blocks into MCUs (jcmaster.c), and what an MCU holds at
 * the right and bottom edges of the image.
 */
module ImageLayout {
  import opened Bits
  import opened JpegLimits

  const DCTSIZE: nat := 8
  const MAX_SAMP_FACTOR: nat := 4
  const C_MAX_BLOCKS_IN_MCU: nat := 10

  /** jdiv_round_up. */
  function DivRoundUp(a: nat, b: nat): (q: nat)
    requires b > 0
    ensures q * b >= a && (a > 0 ==> q > 0 && (q - 1) * b < a) && (a == 0 ==> q == 0)
  {
    RoundUp(a, b, (a + b - 1) / b);
    (a + b - 1) / b
  }

  lemma RoundUp(a: nat, b: nat, q: int)
    requires b > 0 && q == (a + b - 1) / b
    ensures q >= 0 && q * b >= a && (a > 0 ==> q > 0 && (q - 1) * b < a) && (a == 0 ==> q == 0)
  {
    var r := (a + b - 1) % b;
    assert a + b - 1 == b * q + r && 0 <= r < b;
    MulDistribute(q, -1, b);
    if q < 0 { MulAtLeast(q, -1, b); }
    if a == 0 { DivUnique(b - 1, b, 0, b - 1); }
  }

  /** A quotient rounded up is the number whose multiple is the first not below. */
  lemma RoundUpIs(a: nat, b: nat, q: nat)
    requires b > 0 && a > 0 && q > 0 && (q - 1) * b < a <= q * b
    ensures DivRoundUp(a, b) == q
  {
    var p := DivRoundUp(a, b);
    if p < q { MulAtLeast(p, q - 1, b); }
    if p > q { MulAtLeast(q, p - 1, b); }
  }

  /** Blocks rounded up to MCUs are samples rounded up to MCUs: an image of `n` samples, cut into
      blocks of a component sampled `h` times in `m`, and those into groups of `h`. */
  lemma NestedCeiling(n: nat, h: nat, m: nat)
    requires n > 0 && h > 0 && m > 0
    ensures m * DCTSIZE > 0 && DivRoundUp(DivRoundUp(n * h, m * DCTSIZE), h) == DivRoundUp(n, m * DCTSIZE)
  {
    var d := m * DCTSIZE;
    MulAtLeast(1, n, h);
    var a := DivRoundUp(n * h, d);
    var q := DivRoundUp(n, d);
    // q h blocks are enough, and (q - 1) h are not
    assert n <= q * d && (q - 1) * d < n;
    MulAtLeast(n, q * d, h);
    Commute(q, d, h);
    MulLess((q - 1) * d, n, h);
    Commute(q - 1, d, h);
    MulAtLeast(1, q, h);
    if a > q * h { MulAtLeast(q * h, a - 1, d); }
    if a <= (q - 1) * h { MulAtLeast(a, (q - 1) * h, d); }
    RoundUpIs(a, h, q);
  }

  lemma Commute(a: int, b: int, c: int)
    ensures a * b * c == a * c * b
  {
    MulAssoc(a, b, c);
    MulAssoc(a, c, b);
    assert b * c == c * b;
  }

  // ---- initial_setup and per_scan_setup

  datatype Option<T> = None | Some(value: T)

  /** A component: sampling factors, and its size in blocks. */
  datatype Component = Component(h: nat, v: nat, width: nat, height: nat)

  datatype Frame = Frame(width: nat, height: nat, maxH: nat, maxV: nat, comps: seq<Component>, totalRows: nat) {
    predicate Ok() {
      width > 0 && height > 0 && maxH > 0 && maxV > 0 && totalRows == DivRoundUp(height, maxV * DCTSIZE) &&
      forall i :: 0 <= i < |comps| ==> CompOk(comps[i])
    }

    predicate CompOk(c: Component)
      requires maxH > 0 && maxV > 0
    {
      0 < c.h <= maxH && 0 < c.v <= maxV &&
      c.width == DivRoundUp(width * c.h, maxH * DCTSIZE) && c.height == DivRoundUp(height * c.v, maxV * DCTSIZE)
    }

    /** The largest sampling factors are those of components, or one. */
    predicate Tight() {
      (maxH == 1 || exists i :: 0 <= i < |comps| && comps[i].h == maxH) &&
      (maxV == 1 || exists i :: 0 <= i < |comps| && comps[i].v == maxV)
    }
  }

  /** A component with the largest factor has a column, or a row, of blocks for each eight samples of the image. */
  lemma FullSize(f: Frame, c: Component)
    requires f.Ok() && f.CompOk(c)
    ensures c.h == f.maxH ==> c.width == DivRoundUp(f.width, DCTSIZE)
    ensures c.v == f.maxV ==> c.height == DivRoundUp(f.height, DCTSIZE)
  {
    hide DivRoundUp;
    SameRatio(f.width, f.maxH);
    SameRatio(f.height, f.maxV);
  }

  lemma SameRatio(n: nat, m: nat)
    requires n > 0 && m > 0
    ensures m * DCTSIZE > 0 && DivRoundUp(n * m, m * DCTSIZE) == DivRoundUp(n, DCTSIZE)
  {
    var q := DivRoundUp(n, DCTSIZE);
    MulAtLeast(1, n, m);
    MulAtLeast(n, q * DCTSIZE, m);
    MulLess((q - 1) * DCTSIZE, n, m);
    Commute(q, DCTSIZE, m);
    Commute(q - 1, DCTSIZE, m);
    MulAssoc(q, m, DCTSIZE);
    MulAssoc(q - 1, m, DCTSIZE);
    RoundUpIs(n * m, m * DCTSIZE, q);
  }

  datatype Factors = Factors(h: nat, v: nat)

  predicate Allowed(x: Factors) {
    0 < x.h <= MAX_SAMP_FACTOR && 0 < x.v <= MAX_SAMP_FACTOR
  }

  /** initial_setup: sizes from the sampling factors. */
  method InitialSetup(width: nat, height: nat, factors: seq<Factors>) returns (r: Option<Frame>)
    ensures r.Some? <==>
              0 < width <= JPEG_MAX_DIMENSION && 0 < height <= JPEG_MAX_DIMENSION &&
              0 < |factors| <= MAX_COMPONENTS && forall i :: 0 <= i < |factors| ==> Allowed(factors[i])
    ensures r.Some? ==>
              r.value.Ok() && r.value.Tight() && |r.value.comps| == |factors| && r.value.width == width &&
              r.value.height == height
    ensures r.Some? ==>
              forall i ::
                0 <= i < |factors| ==> r.value.comps[i].h == factors[i].h && r.value.comps[i].v == factors[i].v
  {
    if width == 0 || height == 0 || |factors| == 0 { return None; }
    if height > JPEG_MAX_DIMENSION || width > JPEG_MAX_DIMENSION || |factors| > MAX_COMPONENTS { return None; }
    var maxH, maxV := 1, 1;
    for i := 0 to |factors|
      invariant maxH >= 1 && maxV >= 1 &&
                forall j :: 0 <= j < i ==> Allowed(factors[j]) && factors[j].h <= maxH && factors[j].v <= maxV
      invariant maxH == 1 || exists j :: 0 <= j < i && factors[j].h == maxH
      invariant maxV == 1 || exists j :: 0 <= j < i && factors[j].v == maxV
    {
      if !Allowed(factors[i]) { return None; }
      if factors[i].h > maxH { maxH := factors[i].h; }
      if factors[i].v > maxV { maxV := factors[i].v; }
    }
    var f := Frame(width, height, maxH, maxV, [], DivRoundUp(height, maxV * DCTSIZE));
    for i := 0 to |factors|
      invariant f.Ok() && |f.comps| == i && f.width == width && f.height == height && f.maxH == maxH && f.maxV == maxV
      invariant forall j :: 0 <= j < i ==> f.comps[j].h == factors[j].h && f.comps[j].v == factors[j].v
    {
      var c := Component(factors[i].h, factors[i].v, DivRoundUp(width * factors[i].h, maxH * DCTSIZE),
          DivRoundUp(height * factors[i].v, maxV * DCTSIZE));
      f := f.(comps := f.comps + [c]);
    }
    TightFactors(f, factors);
    r := Some(f);
  }

  lemma TightFactors(f: Frame, factors: seq<Factors>)
    requires |f.comps| == |factors| &&
             forall j :: 0 <= j < |factors| ==> f.comps[j].h == factors[j].h && f.comps[j].v == factors[j].v
    requires f.maxH == 1 || exists j :: 0 <= j < |factors| && factors[j].h == f.maxH
    requires f.maxV == 1 || exists j :: 0 <= j < |factors| && factors[j].v == f.maxV
    ensures f.Tight()
  {
    if f.maxH != 1 {
      var j :| 0 <= j < |factors| && factors[j].h == f.maxH;
      assert f.comps[j].h == f.maxH;
    }
    if f.maxV != 1 {
      var j :| 0 <= j < |factors| && factors[j].v == f.maxV;
      assert f.comps[j].v == f.maxV;
    }
  }

  /** A component as a scan uses it: its blocks in an MCU, and those not dummies in the last column
      and the last row of MCUs (the last iMCU row, if the scan is not interleaved). */
  datatype ScanComp = ScanComp(index: nat, mcuWidth: nat, mcuHeight: nat, lastColWidth: nat, lastRowHeight: nat)

  datatype ScanSetup = ScanSetup(comps: seq<ScanComp>, mcusPerRow: nat, mcuRows: nat, membership: seq<nat>)

  predicate CompFits(f: Frame, s: ScanSetup, k: nat)
    requires k < |s.comps|
  {
    var sc := s.comps[k];
    sc.index < |f.comps| &&
    var c := f.comps[sc.index];
    0 < sc.lastColWidth <= sc.mcuWidth && c.width == (s.mcusPerRow - 1) * sc.mcuWidth + sc.lastColWidth &&
    0 < sc.lastRowHeight <= c.v && c.height == (f.totalRows - 1) * c.v + sc.lastRowHeight &&
    if |s.comps| == 1 then sc.mcuWidth == sc.mcuHeight == 1 && s.mcuRows == c.height
    else sc.mcuWidth == c.h && sc.mcuHeight == c.v && s.mcuRows == f.totalRows
  }

  /** The blocks an MCU of the first `k` components has. */
  function BlocksIn(comps: seq<ScanComp>, k: nat): nat
    requires k <= |comps|
  {
    if k == 0 then 0 else BlocksIn(comps, k - 1) + comps[k - 1].mcuHeight * comps[k - 1].mcuWidth
  }

  /** Block `b` of an MCU belongs to the component in whose share of the MCU it lies. */
  predicate Members(s: ScanSetup) {
    forall b :: 0 <= b < |s.membership| ==>
      s.membership[b] < |s.comps| && BlocksIn(s.comps, s.membership[b]) <= b < BlocksIn(s.comps, s.membership[b] + 1)
  }

  predicate Fits(f: Frame, s: ScanSetup) {
    f.Ok() && 0 < |s.comps| <= MAX_COMPS_IN_SCAN && s.mcusPerRow > 0 && f.totalRows > 0 &&
    |s.membership| == BlocksIn(s.comps, |s.comps|) <= C_MAX_BLOCKS_IN_MCU && Members(s) &&
    forall k: nat :: k < |s.comps| ==> CompFits(f, s, k)
  }

  lemma LastGroup(size: nat, unit: nat, groups: nat, last: nat)
    requires unit > 0 && size > 0 && groups == DivRoundUp(size, unit) &&
             last == if size % unit == 0 then unit else size % unit
    ensures 0 < last <= unit && size == (groups - 1) * unit + last
  {
    var q := size / unit;
    assert size == unit * q + size % unit;
    MulDistribute(q, -1, unit);
    if size % unit == 0 {
      assert q > 0 by { if q <= 0 { MulAtLeast(q, 0, unit); } }
      RoundUpIs(size, unit, q);
    } else {
      MulDistribute(q, 1, unit);
      RoundUpIs(size, unit, q + 1);
    }
  }

  /** The number of blocks in an interleaved MCU, in unbounded arithmetic. */
  function Wanted(f: Frame, cur: seq<nat>, k: nat): nat
    requires k <= |cur| && forall i :: 0 <= i < |cur| ==> cur[i] < |f.comps|
  {
    if k == 0 then 0 else Wanted(f, cur, k - 1) + f.comps[cur[k - 1]].v * f.comps[cur[k - 1]].h
  }

  /** The largest restart interval that a DRI marker can hold. */
  const MAX_RESTART := 65535

  /** per_scan_setup. A restart interval given in MCU rows is converted to MCUs: restarts come at the
      starts of rows unless the interval has to be cut to sixteen bits. */
  method PerScanSetup(f: Frame, cur: seq<nat>, restartInRows: int, restartInterval: nat)
    returns (r: Option<ScanSetup>, interval: nat)
    requires f.Ok() && forall i :: 0 <= i < |cur| ==> cur[i] < |f.comps|
    ensures r.Some? <==> |cur| == 1 || (0 < |cur| <= MAX_COMPS_IN_SCAN && Wanted(f, cur, |cur|) <= C_MAX_BLOCKS_IN_MCU)
    ensures r.Some? ==>
              Fits(f, r.value) && |r.value.comps| == |cur| &&
              forall i :: 0 <= i < |cur| ==> r.value.comps[i].index == cur[i]
    ensures r.Some? ==>
              if restartInRows <= 0 then interval == restartInterval
              else if restartInRows * r.value.mcusPerRow <= MAX_RESTART then
                interval == restartInRows * r.value.mcusPerRow
              else interval == MAX_RESTART
  {
    if |cur| == 1 {
      r := OneComponent(f, cur[0]);
    } else if |cur| == 0 || |cur| > MAX_COMPS_IN_SCAN {
      r := None;
    } else {
      r := Interleave(f, cur);
    }
    interval := restartInterval;
    if restartInRows > 0 && r.Some? {
      var nominal := restartInRows * r.value.mcusPerRow;
      interval := if nominal < MAX_RESTART then nominal else MAX_RESTART;
    }
  }

  method OneComponent(f: Frame, ci: nat) returns (r: Option<ScanSetup>)
    requires f.Ok() && ci < |f.comps|
    ensures r.Some? && Fits(f, r.value) && |r.value.comps| == 1 && r.value.comps[0].index == ci
  {
    var c := f.comps[ci];
    var tmp := c.height % c.v;
    if tmp == 0 { tmp := c.v; }
    Sizes(f, c);
    LastGroup(c.height, c.v, f.totalRows, tmp);
    var s := ScanSetup([ScanComp(ci, 1, 1, 1, tmp)], c.width, c.height, [0]);
    assert BlocksIn(s.comps, 1) == 1;
    r := Some(s);
  }

  lemma Sizes(f: Frame, c: Component)
    requires f.Ok() && f.CompOk(c)
    ensures c.width > 0 && c.height > 0 && f.totalRows > 0
    ensures DivRoundUp(c.width, c.h) == DivRoundUp(f.width, f.maxH * DCTSIZE) &&
            DivRoundUp(c.height, c.v) == f.totalRows
  {
    MulAtLeast(1, f.width, c.h);
    MulAtLeast(1, f.height, c.v);
    NestedCeiling(f.width, c.h, f.maxH);
    NestedCeiling(f.height, c.v, f.maxV);
  }

  /** The components set up so far in an interleaved scan of `n` components. */
  predicate SettingUp(f: Frame, s: ScanSetup, cur: seq<nat>, n: nat, ci: nat)
    requires f.Ok() && forall i :: 0 <= i < |cur| ==> cur[i] < |f.comps|
  {
    ci <= n == |cur| && |s.comps| == ci && s.mcusPerRow == DivRoundUp(f.width, f.maxH * DCTSIZE) &&
    s.mcuRows == f.totalRows &&
    |s.membership| == BlocksIn(s.comps, ci) == Wanted(f, cur, ci) <= C_MAX_BLOCKS_IN_MCU && Members(s) &&
    forall k: nat :: k < ci ==> s.comps[k].index == cur[k] && Interleaved(f, s, s.comps[k])
  }

  predicate Interleaved(f: Frame, s: ScanSetup, sc: ScanComp) {
    sc.index < |f.comps| &&
    var c := f.comps[sc.index];
    0 < sc.lastColWidth <= sc.mcuWidth == c.h && c.width == (s.mcusPerRow - 1) * sc.mcuWidth + sc.lastColWidth &&
    0 < sc.lastRowHeight <= c.v == sc.mcuHeight && c.height == (f.totalRows - 1) * c.v + sc.lastRowHeight
  }

  method Interleave(f: Frame, cur: seq<nat>) returns (r: Option<ScanSetup>)
    requires f.Ok() && 1 < |cur| <= MAX_COMPS_IN_SCAN && forall i :: 0 <= i < |cur| ==> cur[i] < |f.comps|
    ensures r.Some? <==> Wanted(f, cur, |cur|) <= C_MAX_BLOCKS_IN_MCU
    ensures r.Some? ==>
              Fits(f, r.value) && |r.value.comps| == |cur| &&
              forall i :: 0 <= i < |cur| ==> r.value.comps[i].index == cur[i]
  {
    var s := ScanSetup([], DivRoundUp(f.width, f.maxH * DCTSIZE), DivRoundUp(f.height, f.maxV * DCTSIZE), []);
    for ci := 0 to |cur|
      invariant SettingUp(f, s, cur, |cur|, ci)
    {
      var ok;
      ok, s := AddComponent(f, s, cur, ci);
      if !ok {
        WantedGrows(f, cur, ci + 1, |cur|);
        return None;
      }
    }
    Sizes(f, f.comps[cur[0]]);
    r := Some(s);
  }

  lemma {:induction false} WantedGrows(f: Frame, cur: seq<nat>, i: nat, j: nat)
    requires i <= j <= |cur| && forall i :: 0 <= i < |cur| ==> cur[i] < |f.comps|
    ensures Wanted(f, cur, i) <= Wanted(f, cur, j)
    decreases j
  {
    if i < j {
      WantedGrows(f, cur, i, j - 1);
      MulAtLeast(0, f.comps[cur[j - 1]].v, if f.comps[cur[j - 1]].h == 0 then 1 else f.comps[cur[j - 1]].h);
    }
  }

  method AddComponent(f: Frame, s: ScanSetup, cur: seq<nat>, ci: nat) returns (ok: bool, s': ScanSetup)
    requires f.Ok() && (forall i :: 0 <= i < |cur| ==> cur[i] < |f.comps|) && ci < |cur| &&
             SettingUp(f, s, cur, |cur|, ci)
    ensures if ok then SettingUp(f, s', cur, |cur|, ci + 1) else Wanted(f, cur, ci + 1) > C_MAX_BLOCKS_IN_MCU
  {
    hide DivRoundUp;
    var c := f.comps[cur[ci]];
    Sizes(f, c);
    var tmp := c.width % c.h;
    if tmp == 0 { tmp := c.h; }
    LastGroup(c.width, c.h, s.mcusPerRow, tmp);
    var lastColWidth := tmp;
    tmp := c.height % c.v;
    if tmp == 0 { tmp := c.v; }
    LastGroup(c.height, c.v, f.totalRows, tmp);
    var sc := ScanComp(cur[ci], c.h, c.v, lastColWidth, tmp);
    var mcublks: nat := c.v * c.h;
    MoreComponents(s.comps, sc, ci);
    ok := |s.membership| + mcublks <= C_MAX_BLOCKS_IN_MCU;
    s' := s.(comps := s.comps + [sc]);
    if ok {
      MembersKept(s, sc);
      s' := AddMembers(s', ci, mcublks);
    }
  }

  lemma MembersKept(s: ScanSetup, sc: ScanComp)
    requires Members(s)
    ensures Members(s.(comps := s.comps + [sc]))
  {
    MoreComponents(s.comps, sc, |s.comps|);
  }

  /** The share of one component in the array describing MCU composition. */
  method AddMembers(s: ScanSetup, ci: nat, blocks: nat) returns (s': ScanSetup)
    requires ci < |s.comps| && Members(s) && |s.membership| == BlocksIn(s.comps, ci) &&
             |s.membership| + blocks == BlocksIn(s.comps, ci + 1)
    ensures s' == s.(membership := s'.membership) && Members(s') && |s'.membership| == BlocksIn(s.comps, ci + 1)
  {
    var mcublks := blocks;
    s' := s;
    while mcublks > 0
      invariant s' == s.(membership := s'.membership) && |s'.membership| + mcublks == BlocksIn(s.comps, ci + 1) &&
                Members(s')
      invariant BlocksIn(s.comps, ci) <= |s'.membership|
    {
      s' := s'.(membership := s'.membership + [ci]);
      mcublks := mcublks - 1;
    }
  }

  lemma {:induction false} MoreComponents(comps: seq<ScanComp>, sc: ScanComp, k: nat)
    requires k <= |comps|
    ensures BlocksIn(comps + [sc], k) == BlocksIn(comps, k)
    ensures forall i: nat :: i <= k ==> BlocksIn(comps + [sc], i) == BlocksIn(comps, i)
  {
    if k > 0 { MoreComponents(comps, sc, k - 1); }
  }
}
