/**
 * Scanlines on their way to the compressor (jcapistd.c, jcmainct.c, jcprepct.c): rows are gathered
 * into groups and groups into iMCU rows. When the compressor cannot take an iMCU row, the last
 * scanline is reported as not yet written, so that the application offers it again. However few
 * lines are offered and whatever is refused, every row goes into one place, once and in order.
 */
module ScanlineWriter {
  import opened Bits
  import opened BlockControllers
  import opened EntropySinks
  import opened ImageLayout

  /** A row group: max_v_samp_factor image rows, or padding that repeats a row. */
  datatype Group = Rows(rows: seq<nat>) | Padding(row: nat)

  function LastRow(g: Group): nat {
    match g
    case Rows(rows) => if rows == [] then 0 else rows[|rows| - 1]
    case Padding(row) => row
  }

  /** Group `n` of an image of `h` rows, in groups of `m`: below the image the last row repeats. */
  function GroupAt(h: nat, m: nat, n: nat): Group
    requires h > 0 && m > 0
  {
    if n * m < h then Rows(seq(m, t requires 0 <= t < m => if n * m + t < h then n * m + t else h - 1))
    else Padding(h - 1)
  }

  /** An iMCU row of eight groups, and the first `n` iMCU rows. */
  function Strip(h: nat, m: nat, r: nat): seq<Group>
    requires h > 0 && m > 0
  {
    seq(DCTSIZE, g requires 0 <= g < DCTSIZE => GroupAt(h, m, r * DCTSIZE + g))
  }

  function Strips(h: nat, m: nat, n: nat): (r: seq<seq<Group>>)
    requires h > 0 && m > 0
    ensures |r| == n
  {
    seq(n, r requires 0 <= r < n => Strip(h, m, r))
  }

  lemma LastInGroup(h: nat, m: nat, n: nat)
    requires h > 0 && m > 0 && h <= n * m + m
    ensures LastRow(GroupAt(h, m, n)) == h - 1
  {
  }

  /** Row `n` of the groups, counted through all of them: every row of the image in its place, and below the
      image the last one. */
  function RowIn(g: Group, t: nat): nat {
    match g
    case Rows(rows) => if t < |rows| then rows[t] else 0
    case Padding(row) => row
  }

  lemma StripsGroup(h: nat, m: nat, total: nat, r: nat, g: nat)
    requires h > 0 && m > 0 && r < total && g < DCTSIZE
    ensures Strips(h, m, total)[r][g] == GroupAt(h, m, r * DCTSIZE + g)
  {
    assert Strips(h, m, total)[r] == Strip(h, m, r);
  }

  lemma RowInGroup(h: nat, m: nat, q: nat, t: nat)
    requires h > 0 && t < m
    ensures RowIn(GroupAt(h, m, q), t) == if q * m + t < h then q * m + t else h - 1
  {
  }

  lemma EveryRow(h: nat, m: nat, total: nat, n: nat)
    requires h > 0 && m > 0 && n < total * (m * DCTSIZE)
    ensures var (r, g, t) := (n / m / DCTSIZE, n / m % DCTSIZE, n % m);
            r < total && RowIn(Strips(h, m, total)[r][g], t) == if n < h then n else h - 1
  {
    hide Strips, GroupAt, RowIn;
    var q, t := n / m, n % m;
    assert n == q * m + t;
    MulAssoc(total, DCTSIZE, m);
    if q >= total * DCTSIZE { MulAtLeast(total * DCTSIZE, q, m); }
    StripsGroup(h, m, total, q / DCTSIZE, q % DCTSIZE);
    RowInGroup(h, m, q, t);
  }

  /** How many of the compressor's answers are yes. */
  function Accepted(answers: seq<bool>): nat {
    if answers == [] then 0
    else Accepted(answers[..|answers| - 1]) + if answers[|answers| - 1] then 1 else 0
  }

  /** What takes the iMCU rows: any compressor at all, of which only the answers are given; or the
      single-pass controller. */
  datatype Compressor = AnyCompressor(accepts: nat -> bool) | Coefficients(c: CoefController)

  class Writer {
    const height: nat
    const maxV: nat
    const total: nat
    const below: Compressor
    const colorBuf: array<nat>
    const buffer: array<Group>
    var nextScanline: nat
    var curImcuRow: nat
    var rowgroupCtr: nat
    var suspended: bool
    var nextBufRow: nat
    var rowsToGo: nat
    var strips: seq<seq<Group>>
    /** What the compressor has answered so far. */
    var answers: seq<bool>

    ghost predicate Shaped()
      reads `curImcuRow, `rowgroupCtr, `nextBufRow, `rowsToGo
    {
      Apart() && height > 0 && maxV > 0 && total == DivRoundUp(height, maxV * DCTSIZE) && colorBuf.Length == maxV &&
      buffer.Length == DCTSIZE &&
      curImcuRow <= total && rowgroupCtr <= DCTSIZE && nextBufRow < maxV && rowsToGo <= height
    }

    /** The objects of the compressor. */
    function Below(): set<object> {
      match below
      case AnyCompressor(_) => {}
      case Coefficients(c) => {c, c.mcuBuffer, c.dummyBuffer, c.sink} + c.sink.Below()
    }

    predicate Apart() {
      {this, colorBuf, buffer} !! Below()
    }

    /** The compressor has taken `n` iMCU rows. */
    ghost predicate Took(n: nat)
      reads `answers, Below()
    {
      match below
      case AnyCompressor(accepts) => forall k :: 0 <= k < |answers| ==> answers[k] == accepts(k)
      case Coefficients(c) => c.Valid() && c.mode == PassThru && c.f.totalRows == total && c.imcuRowNum == n
    }

    /** The entropy coder has met a symbol without a code. */
    predicate Failed()
      reads Below()
    {
      below.Coefficients? && below.c.sink.failed
    }

    /** How many MCUs the entropy coder has taken ... */
    function Coded(): nat
      reads Below()
    {
      if below.Coefficients? then |below.c.sink.fed| else 0
    }

    /** ... and whether there is room for the next. */
    ghost predicate Ample()
      requires Took(curImcuRow)
      reads `answers, `curImcuRow, Below()
    {
      below.Coefficients? && below.c.sink.Ample()
    }

    /** The number of the group being filled. */
    function Current(): nat
      reads `curImcuRow, `rowgroupCtr
    {
      curImcuRow * DCTSIZE + rowgroupCtr
    }

    /** Everything read so far is where it belongs. */
    ghost predicate Filled()
      reads `strips, `curImcuRow, `rowgroupCtr, `nextBufRow, `rowsToGo, colorBuf, buffer
    {
      FilledOver(strips)
    }

    /** The same, with the iMCU rows `sent` taken by the compressor. */
    ghost predicate FilledOver(sent: seq<seq<Group>>)
      reads `curImcuRow, `rowgroupCtr, `nextBufRow, `rowsToGo, colorBuf, buffer
    {
      Shaped() && sent == Strips(height, maxV, curImcuRow) && (rowgroupCtr == DCTSIZE ==> nextBufRow == 0) &&
      (forall g :: 0 <= g < rowgroupCtr ==> buffer[g] == GroupAt(height, maxV, curImcuRow * DCTSIZE + g)) &&
      (forall t :: 0 <= t < nextBufRow ==> colorBuf[t] == Current() * maxV + t) &&
      if rowsToGo > 0 then height - rowsToGo == Current() * maxV + nextBufRow && curImcuRow < total
      else
        nextBufRow == 0 &&
        if rowgroupCtr == 0 then curImcuRow == total else rowgroupCtr == DCTSIZE && curImcuRow + 1 == total
    }

    lemma FilledShaped()
      requires Filled()
      ensures Shaped() && (rowgroupCtr == DCTSIZE || rowsToGo > 0 ==> curImcuRow < total)
    {
    }

    /** Between calls: the scanlines reported as written are those read, but for the last one while
        the compressor has an iMCU row to take. */
    ghost predicate Valid()
      reads this, colorBuf, buffer, Below()
    {
      Filled() && Took(curImcuRow) && nextScanline + (if suspended then 1 else 0) == height - rowsToGo &&
          (suspended <==> rowgroupCtr == DCTSIZE) && Answered()
    }

    /** The compressor has taken an iMCU row each time it said yes; a refusal is the last answer. */
    ghost predicate Answered()
      reads `answers, `curImcuRow, `suspended
    {
      curImcuRow == Accepted(answers) && (suspended <==> answers != [] && !answers[|answers| - 1])
    }

    /** start_pass_main and start_pass_prep. */
    constructor (height: nat, maxV: nat, below: Compressor)
      requires height > 0 && maxV > 0
      requires below.Coefficients? ==>
                 below.c.Valid() && below.c.mode == PassThru && below.c.imcuRowNum == 0 &&
                 below.c.f.totalRows == DivRoundUp(height, maxV * DCTSIZE)
      ensures Valid() && nextScanline == 0 && fresh(colorBuf) && fresh(buffer) && this.height == height &&
              this.maxV == maxV && this.below == below && answers == [] && !suspended
    {
      hide CoefController.Valid, EntropySink.Valid, EntropySink.Ample;
      this.height, this.maxV, this.below := height, maxV, below;
      total := DivRoundUp(height, maxV * DCTSIZE);
      colorBuf := new nat[maxV];
      buffer := new Group[DCTSIZE](_ => Padding(0));
      nextScanline, curImcuRow, rowgroupCtr, suspended, nextBufRow, rowsToGo, strips, answers := 0, 0, 0, false, 0,
          height, [], [];
    }

    /** color_convert for one row: row number `row` of the image. */
    method ConvertRows(first: nat, n: nat)
      requires Filled() && n <= rowsToGo && nextBufRow + n <= maxV && n > 0 && first == Current() * maxV + nextBufRow
      modifies colorBuf
      ensures forall t :: 0 <= t < nextBufRow + n ==> colorBuf[t] == Current() * maxV + t
    {
      for i := 0 to n
        invariant forall t :: 0 <= t < nextBufRow + i ==> colorBuf[t] == Current() * maxV + t
      {
        colorBuf[nextBufRow + i] := first + i;
      }
    }

    /** pre_process_data, on `avail` rows of which the first is image row `base`. */
    method PreProcess(base: nat, inRowCtr0: nat, avail: nat) returns (inRowCtr: nat)
      requires Filled() && rowgroupCtr < DCTSIZE && (inRowCtr0 < avail ==> avail - inRowCtr0 <= rowsToGo)
      requires base + inRowCtr0 == height - rowsToGo
      modifies `rowgroupCtr, `nextBufRow, `rowsToGo, colorBuf, buffer
      ensures Filled() && base + inRowCtr == height - rowsToGo && inRowCtr0 <= inRowCtr &&
              (inRowCtr <= avail || inRowCtr == inRowCtr0)
      ensures rowgroupCtr == 0 ==> rowsToGo > 0 || inRowCtr == inRowCtr0
      ensures rowgroupCtr == DCTSIZE ==> inRowCtr > inRowCtr0
      ensures rowgroupCtr < DCTSIZE ==> inRowCtr >= avail
    {
      inRowCtr := inRowCtr0;
      while inRowCtr < avail && rowgroupCtr < DCTSIZE
        invariant Filled() && base + inRowCtr == height - rowsToGo && inRowCtr0 <= inRowCtr &&
                  (inRowCtr <= avail || inRowCtr == inRowCtr0)
        invariant (inRowCtr < avail ==> avail - inRowCtr <= rowsToGo) &&
                  (rowgroupCtr == DCTSIZE ==> inRowCtr > inRowCtr0)
        invariant rowgroupCtr == 0 ==> rowsToGo > 0 || inRowCtr == inRowCtr0
        decreases avail - inRowCtr
      {
        var numrows := Min(maxV - nextBufRow, avail - inRowCtr);
        TakeRows(base + inRowCtr, numrows);
        inRowCtr := inRowCtr + numrows;
      }
    }

    function Min(a: nat, b: nat): nat { if a < b then a else b }

    /** Some rows into the conversion buffer, and what follows when it or the image is complete. */
    method TakeRows(first: nat, n: nat)
      requires Filled() && rowgroupCtr < DCTSIZE && 0 < n <= rowsToGo && nextBufRow + n <= maxV &&
               first == height - rowsToGo
      modifies `rowgroupCtr, `nextBufRow, `rowsToGo, colorBuf, buffer
      ensures Filled() && rowsToGo == old(rowsToGo) - n && (rowgroupCtr == 0 ==> rowsToGo > 0)
    {
      hide Strips, DivRoundUp, Apart;
      ghost var g := Current();
      ConvertRows(first, n);
      var rows := nextBufRow + n;
      rowsToGo := rowsToGo - n;
      if rowsToGo == 0 && rows < maxV {
        ExpandBottom(rows);
        rows := maxV;
      }
      if rows == maxV {
        assert colorBuf[..] == GroupAt(height, maxV, g).rows;
        EmptyConversion(g);
      } else {
        nextBufRow := rows;
      }
    }

    /** downsample: the conversion buffer becomes a row group. */
    method EmptyConversion(ghost g: nat)
      requires Shaped() && rowgroupCtr < DCTSIZE && curImcuRow < total && strips == Strips(height, maxV, curImcuRow) &&
               g == Current()
      requires (forall j :: 0 <= j < rowgroupCtr ==> buffer[j] == GroupAt(height, maxV, curImcuRow * DCTSIZE + j)) &&
               Rows(colorBuf[..]) == GroupAt(height, maxV, g)
      requires if rowsToGo > 0 then height - rowsToGo == g * maxV + maxV else g * maxV < height <= g * maxV + maxV
      modifies `rowgroupCtr, `nextBufRow, buffer
      ensures Filled() && rowgroupCtr > 0
    {
      hide Strips, DivRoundUp, GroupAt;
      buffer[rowgroupCtr] := Rows(colorBuf[..]);
      MulDistribute(g, 1, maxV);
      nextBufRow := 0;
      rowgroupCtr := rowgroupCtr + 1;
      if rowsToGo == 0 { PadOutput(g); }
    }

    /** Where the rows of a strip end. */
    lemma InStrip(r: nat, g: nat)
      requires height > 0 && maxV > 0 && total == DivRoundUp(height, maxV * DCTSIZE)
      ensures (r * DCTSIZE) * maxV == r * (maxV * DCTSIZE)
      ensures r < total && (r + 1) * (maxV * DCTSIZE) >= height ==> r + 1 == total
      ensures r * (maxV * DCTSIZE) < height ==> r < total
    {
      MulAssoc(r, DCTSIZE, maxV);
      var d := maxV * DCTSIZE;
      if r >= total { MulAtLeast(total, r, d); }
      if r + 1 < total { MulAtLeast(r + 1, total - 1, d); }
    }

    /** expand_bottom_edge on the conversion buffer. */
    method ExpandBottom(rows: nat)
      requires Shaped() && 0 < rows < maxV && Current() * maxV + rows == height &&
               forall t :: 0 <= t < rows ==> colorBuf[t] == Current() * maxV + t
      modifies colorBuf
      ensures forall t ::
                0 <= t < maxV ==>
                  colorBuf[t] == if Current() * maxV + t < height then Current() * maxV + t else height - 1
    {
      for row := rows to maxV
        invariant forall t :: 0 <= t < row ==> colorBuf[t] == if t < rows then Current() * maxV + t else height - 1
      {
        colorBuf[row] := colorBuf[rows - 1];
      }
    }

    /** expand_bottom_edge on the output: the rest of the iMCU row repeats the last row. */
    method PadOutput(ghost g: nat)
      requires Shaped() && rowsToGo == 0 && nextBufRow == 0 && 0 < rowgroupCtr && curImcuRow < total &&
               strips == Strips(height, maxV, curImcuRow)
      requires g == curImcuRow * DCTSIZE + (rowgroupCtr - 1) && g * maxV < height <= g * maxV + maxV
      requires forall j :: 0 <= j < rowgroupCtr ==> buffer[j] == GroupAt(height, maxV, curImcuRow * DCTSIZE + j)
      modifies `rowgroupCtr, buffer
      ensures Filled() && rowgroupCtr == DCTSIZE
    {
      hide Strips, DivRoundUp, GroupAt, LastRow;
      var n := rowgroupCtr;
      LastInGroup(height, maxV, g);
      while n < DCTSIZE
        invariant rowgroupCtr == old(rowgroupCtr) <= n <= DCTSIZE && buffer[rowgroupCtr - 1] == GroupAt(height, maxV, g)
        invariant forall j :: 0 <= j < n ==> buffer[j] == GroupAt(height, maxV, curImcuRow * DCTSIZE + j)
      {
        BelowImage(g, curImcuRow * DCTSIZE + n);
        buffer[n] := Padding(LastRow(buffer[rowgroupCtr - 1]));
        n := n + 1;
      }
      LastStrip(g);
      rowgroupCtr := DCTSIZE;
    }

    lemma BelowImage(g: nat, n: nat)
      requires height > 0 && maxV > 0 && height <= g * maxV + maxV && n > g
      ensures GroupAt(height, maxV, n) == Padding(height - 1)
    {
      MulAtLeast(g + 1, n, maxV);
      MulDistribute(g, 1, maxV);
    }

    lemma LastStrip(g: nat)
      requires Shaped() && curImcuRow < total && g < curImcuRow * DCTSIZE + DCTSIZE && height <= g * maxV + maxV
      ensures curImcuRow + 1 == total
    {
      MulAtLeast(g + 1, (curImcuRow + 1) * DCTSIZE, maxV);
      MulDistribute(g, 1, maxV);
      InStrip(curImcuRow + 1, 0);
      InStrip(curImcuRow, 0);
    }

    /** compress_data: the compressor takes the iMCU row or suspends. */
    method CompressData() returns (ok: bool)
      requires Shaped() && Took(curImcuRow) && !Failed() && curImcuRow < total
      modifies `strips, `answers, Below()
      ensures Took(if ok then curImcuRow + 1 else curImcuRow) && (ok ==> !Failed())
      ensures answers == old(answers) + [ok] && strips == if ok then old(strips) + [buffer[..]] else old(strips)
      ensures Coded() >= old(Coded()) && (old(Ample()) ==> Failed() || Coded() > old(Coded()))
    {
      hide CoefController.Valid, EntropySink.Valid, EntropySink.Ample, Filled, DivRoundUp;
      match below {
        case AnyCompressor(accepts) => ok := accepts(|answers|);
        case Coefficients(c) => ok := c.CompressData();
      }
      answers := answers + [ok];
      if ok { strips := strips + [buffer[..]]; }
    }

    /** The compressor has taken the buffer: it is empty, and the next iMCU row begins. */
    method NextImcuRow(ghost before: seq<seq<Group>>)
      requires FilledOver(before) && rowgroupCtr == DCTSIZE && curImcuRow < total && strips == before + [buffer[..]]
      modifies `rowgroupCtr, `curImcuRow
      ensures Filled() && rowgroupCtr == 0 && curImcuRow == old(curImcuRow) + 1
    {
      assert buffer[..] == Strip(height, maxV, curImcuRow);
      rowgroupCtr := 0;
      curImcuRow := curImcuRow + 1;
      InStrip(curImcuRow, 0);
    }

    /** The first of the answers since `before` was yes. */
    predicate Resumed(before: seq<bool>)
      reads `answers
    {
      |answers| > |before| && answers[|before|]
    }

    /** process_data_simple_main, on `avail` rows of which the first is the next scanline. */
    method ProcessDataSimple(avail: nat) returns (inRowCtr: nat)
      requires Valid() && !Failed() && avail <= height - nextScanline
      modifies `curImcuRow, `rowgroupCtr, `suspended, `nextBufRow, `rowsToGo, `strips, `answers, colorBuf, buffer,
               Below()
      ensures Filled() && Took(curImcuRow) && (suspended <==> rowgroupCtr == DCTSIZE) &&
              nextScanline + inRowCtr + (if suspended then 1 else 0) == height - rowsToGo && Answered()
      ensures old(answers) <= answers && forall k :: |old(answers)| <= k < |answers| - 1 ==> answers[k]
      ensures inRowCtr > avail <==> avail == 0 && old(suspended) && Resumed(old(answers))
      ensures inRowCtr > avail ==> inRowCtr == 1 && !suspended
      ensures !suspended && curImcuRow < total ==> inRowCtr >= avail
      ensures old(suspended) ==> |answers| > |old(answers)|
      ensures (Failed() ==> suspended) && Coded() >= old(Coded()) && rowsToGo <= old(rowsToGo)
      ensures old(suspended) && old(Ample()) ==> Failed() || Coded() > old(Coded())
      ensures !old(suspended) && avail > 0 ==> rowsToGo < old(rowsToGo)
    {
      hide Strips, GroupAt, DivRoundUp, Writer.Took, Writer.Ample, Writer.Filled, Writer.Answered;
      FilledShaped();
      inRowCtr := 0;
      while curImcuRow < total
        invariant Filled() && nextScanline + inRowCtr + (if suspended then 1 else 0) == height - rowsToGo &&
                  (suspended <==> rowgroupCtr == DCTSIZE) && Took(curImcuRow) && !Failed()
        invariant Answered() && old(answers) <= answers && forall k :: |old(answers)| <= k < |answers| ==> answers[k]
        invariant suspended ==> inRowCtr == 0 && old(suspended)
        invariant inRowCtr > avail ==> inRowCtr == 1 && avail == 0 && old(suspended)
        invariant answers == old(answers) ==>
                    suspended == old(suspended) && curImcuRow == old(curImcuRow) && inRowCtr == 0 &&
                    rowsToGo == old(rowsToGo) && Coded() == old(Coded()) && (old(Ample()) ==> Ample())
        invariant old(suspended) && answers != old(answers) ==>
                    !suspended && Resumed(old(answers)) && (avail == 0 ==> inRowCtr == 1)
        invariant Coded() >= old(Coded()) && rowsToGo <= old(rowsToGo)
        invariant answers != old(answers) && old(suspended) ==> old(Ample()) ==> Coded() > old(Coded())
        invariant answers != old(answers) && !old(suspended) && avail > 0 ==> rowsToGo < old(rowsToGo)
        decreases total - curImcuRow
      {
        FilledShaped();
        if rowgroupCtr < DCTSIZE {
          inRowCtr := PreProcess(nextScanline, inRowCtr, avail);
          FilledShaped();
          if rowgroupCtr != DCTSIZE { return; }
        }
        var ok;
        ok, inRowCtr := SendRow(inRowCtr);
        if !ok { return; }
      }
    }

    /** A completed iMCU row goes to the compressor. If it is refused, the last scanline counts as
        not written; when it has been taken, it counts again. */
    method SendRow(inRowCtr0: nat) returns (ok: bool, inRowCtr: nat)
      requires Filled() && curImcuRow < total && rowgroupCtr == DCTSIZE && (!suspended ==> inRowCtr0 > 0) && Answered()
      requires Took(curImcuRow) && !Failed()
      modifies `curImcuRow, `rowgroupCtr, `suspended, `strips, `answers, Below()
      ensures Filled() && suspended == !ok && (suspended <==> rowgroupCtr == DCTSIZE) && rowsToGo == old(rowsToGo)
      ensures answers == old(answers) + [ok] && Answered() && Took(curImcuRow) && (ok ==> !Failed())
      ensures inRowCtr + (if suspended then 1 else 0) == inRowCtr0 + (if old(suspended) then 1 else 0)
      ensures ok ==> curImcuRow == old(curImcuRow) + 1 && rowgroupCtr == 0
      ensures Coded() >= old(Coded()) && (old(Ample()) ==> Failed() || Coded() > old(Coded()))
    {
      hide Strips, GroupAt, DivRoundUp, Writer.Took, Writer.Ample, Writer.FilledOver;
      inRowCtr := inRowCtr0;
      ghost var before, sent := answers, strips;
      FilledShaped();
      ok := CompressData();
      assert answers[..|answers| - 1] == before;
      if !ok {
        if !suspended {
          inRowCtr := inRowCtr - 1;
          suspended := true;
        }
        return;
      }
      if suspended {
        inRowCtr := inRowCtr + 1;
        suspended := false;
      }
      NextImcuRow(sent);
    }

    /** jpeg_write_scanlines: the number of lines reported as written. The application offers the
        lines from next_scanline on. */
    method WriteScanlines(numLines: nat) returns (written: nat)
      requires Valid() && !Failed()
      modifies this, colorBuf, buffer, Below()
      ensures Valid() && nextScanline == old(nextScanline) + written
      ensures written > numLines <==> numLines == 0 && old(suspended) && Resumed(old(answers))
      ensures written > numLines ==> written == 1
      ensures !suspended && nextScanline < height ==> written >= numLines
      ensures old(answers) <= answers && forall k :: |old(answers)| <= k < |answers| - 1 ==> answers[k]
      ensures old(suspended) ==> |answers| > |old(answers)|
      ensures nextScanline == height <==> strips == Strips(height, maxV, total)
      ensures (Failed() ==> suspended) && Coded() >= old(Coded()) && rowsToGo <= old(rowsToGo)
      ensures old(suspended) && old(Ample()) ==> Failed() || Coded() > old(Coded())
      ensures !old(suspended) && numLines > 0 && old(nextScanline) < height ==> rowsToGo < old(rowsToGo)
    {
      hide Strips, GroupAt, DivRoundUp, Writer.Took, Writer.Ample;
      var rowsLeft := height - nextScanline;
      var avail := if numLines > rowsLeft then rowsLeft else numLines;
      written := ProcessDataSimple(avail);
      nextScanline := nextScanline + written;
    }
  }

  /** One line, refused once and then taken: the first call reports none, and the second, which is
      offered none, reports one. */
  method ReportedLate() returns (first: nat, second: nat)
    ensures first == 0 && second == 1
  {
    var accepts := n => n != 0;
    var writer := new Writer(1, 1, AnyCompressor(accepts));
    first := writer.WriteScanlines(1);
    assert writer.answers != [] ==> writer.answers[0] == accepts(0);
    assert |writer.answers| <= 1;
    second := writer.WriteScanlines(0);
  }
}
