/**
 * The context-row buffer of the decompressor's main controller (jdmainct.c): M + 2 row groups of
 * workspace, two redundant pointer lists onto it, and the state machine that feeds row groups
 * with a row group of context above and below to the postprocessor.
 *
 * One component is followed, with `rg` sample rows in a row group. A sample row is represented
 * by its number in the component.
 */
module ContextRows {
  import Bits

  datatype State = PrepareForImcu | ProcessImcu | PostponedRow

  /** The fixed sizes of a pass: rows per group, groups per iMCU row, rows per iMCU row, real rows,
      and iMCU rows. */
  datatype Shape = Shape(rg: nat, m: nat, b: nat, height: nat, total: nat) {
    predicate Ok() {
      rg >= 1 && m >= 2 && b == rg * m && b >= 2 * rg && total >= 1 && (total - 1) * b < height <= total * b
    }

    /** Real rows in the last iMCU row. */
    function RowsLeft(): (r: nat)
      requires Ok()
      ensures 1 <= r <= b && height == (total - 1) * b + r
    {
      LastRows((total - 1) * b, total * b, b, total);
      height - (total - 1) * b
    }

    /** Real row groups in the last iMCU row. */
    function LastGroups(): nat
      requires Ok()
    {
      (RowsLeft() - 1) / rg + 1
    }

    function Groups(): nat
      requires Ok()
    {
      (total - 1) * m + LastGroups()
    }

    /** Row `row` counted from the top of the image, with the first and last real rows replicated. */
    function Clamp(row: int): nat
      requires Ok()
    {
      if row < 0 then 0 else if row >= height then height - 1 else row
    }

    /** The row group before the last iMCU row. */
    predicate BeforeLast(g: nat)
      requires Ok()
    {
      total >= 2 && g + 1 == (total - 1) * m
    }

    /** What row `t` of the window around group `g` shows: the true neighbour, except that the
        context below the group before the last iMCU row is taken before the pointers are
        adjusted for the bottom of the image. */
    function Expected(g: nat, t: nat): int
      requires Ok()
    {
      var row := g * rg - rg + t;
      if BeforeLast(g) && row >= 0 then row else Clamp(row)
    }
  }

  lemma LastRows(a: nat, c: nat, b: nat, total: nat)
    requires total >= 1 && a == (total - 1) * b && c == total * b
    ensures c == a + b
  {
  }

  /** Where the row lists put the rows of an iMCU row (0 .. b - 1) and of the last two groups
      before it (b .. b + 2 rg - 1). */
  function Loc(sh: Shape, p: nat, i: int): int {
    if p == 0 || i < sh.b - 2 * sh.rg then i else if i < sh.b then i + 2 * sh.rg else i - 2 * sh.rg
  }

  /** A list's regular part up to row `n`; lists are stored `rg` places on, for the rows above. */
  predicate Regular(sh: Shape, xs: seq<int>, p: nat, n: nat) {
    |xs| == sh.b + 4 * sh.rg && n <= sh.b + 2 * sh.rg &&
    forall k :: sh.rg <= k < sh.rg + n ==> xs[k] == Loc(sh, p, k - sh.rg)
  }

  /** Rows above point to the first row: the top of the image. */
  predicate TopAbove(sh: Shape, xs: seq<int>)
    requires |xs| == sh.b + 4 * sh.rg
  {
    forall k :: 0 <= k < sh.rg ==> xs[k] == 0
  }

  /** Rows above point to the last saved group ... */
  predicate WrapAbove(sh: Shape, xs: seq<int>, p: nat)
    requires |xs| == sh.b + 4 * sh.rg
  {
    forall k :: 0 <= k < sh.rg ==> xs[k] == Loc(sh, p, sh.b + sh.rg + k)
  }

  /** ... and the rows beyond the saved groups to the first group. */
  predicate WrapBelow(sh: Shape, xs: seq<int>, p: nat)
    requires |xs| == sh.b + 4 * sh.rg
  {
    forall k :: sh.b + 3 * sh.rg <= k < |xs| ==> xs[k] == Loc(sh, p, k - sh.b - 3 * sh.rg)
  }

  /** The last real row stands for the 2 rg rows below it. */
  predicate BottomBelow(sh: Shape, xs: seq<int>, p: nat)
    requires sh.Ok() && |xs| == sh.b + 4 * sh.rg
  {
    forall k :: sh.rg + sh.RowsLeft() <= k < sh.rg + sh.RowsLeft() + 2 * sh.rg ==>
        xs[k] == Loc(sh, p, sh.RowsLeft() - 1)
  }

  /** The workspace holds iMCU row `n` where list `p` puts it, up to row `hi`. */
  predicate Holds(sh: Shape, work: seq<int>, p: nat, n: int, hi: nat)
    requires sh.Ok() && |work| == sh.b + 2 * sh.rg && hi <= sh.b
  {
    forall i :: 0 <= i < hi ==> work[Loc(sh, p, i)] == n * sh.b + i
  }

  /** The last two groups of iMCU row `n` - 1 are still where list `p` finds them. */
  predicate Saved(sh: Shape, work: seq<int>, p: nat, n: int)
    requires sh.Ok() && |work| == sh.b + 2 * sh.rg
  {
    forall i :: sh.b <= i < sh.b + 2 * sh.rg ==> work[Loc(sh, p, i)] == n * sh.b - 2 * sh.rg + (i - sh.b)
  }

  lemma LocInside(sh: Shape, p: nat, i: int)
    requires sh.Ok() && 0 <= i < sh.b + 2 * sh.rg
    ensures 0 <= Loc(sh, p, i) < sh.b + 2 * sh.rg
  {
  }

  lemma LocDistinct(sh: Shape, p: nat, i: int, j: int)
    requires sh.Ok() && 0 <= i < j < sh.b + 2 * sh.rg
    ensures Loc(sh, p, i) != Loc(sh, p, j)
  {
  }

  /** The groups saved in one list are the last groups of the other. */
  lemma LocSwapped(sh: Shape, p: nat, j: int)
    requires sh.Ok() && p < 2 && 0 <= j < 2 * sh.rg
    ensures Loc(sh, p, sh.b + j) == Loc(sh, 1 - p, sh.b - 2 * sh.rg + j)
  {
  }

  // ---- the windows presented

  /** The window shows group `g` and its context. */
  predicate Shows(sh: Shape, w: seq<int>, g: nat)
    requires sh.Ok()
  {
    |w| == 3 * sh.rg && forall t :: 0 <= t < 3 * sh.rg ==> w[t] == sh.Expected(g, t)
  }

  /** How the lists stand when iMCU row `n` is in the workspace through list n mod 2. */
  predicate Lists(sh: Shape, xs: seq<int>, n: nat, bottom: bool)
    requires sh.Ok()
  {
    |xs| == sh.b + 4 * sh.rg &&
    (if n == 0 then TopAbove(sh, xs) else WrapAbove(sh, xs, n % 2)) &&
    if bottom then Regular(sh, xs, n % 2, sh.RowsLeft()) && BottomBelow(sh, xs, n % 2)
    else Regular(sh, xs, n % 2, sh.b + 2 * sh.rg) && (n > 0 ==> WrapBelow(sh, xs, n % 2))
  }

  /** The row that place `j` of a list shows. */
  function RowAt(work: seq<int>, xs: seq<int>, j: int): int
    requires 0 <= j < |xs| && 0 <= xs[j] < |work|
  {
    work[xs[j]]
  }

  /** Rows above and rows of the current iMCU row. */
  lemma RowsOfImcu(sh: Shape, work: seq<int>, xs: seq<int>, n: nat, bottom: bool, j: int)
    requires sh.Ok() && |work| == sh.b + 2 * sh.rg && Lists(sh, xs, n, bottom) && Holds(sh, work, n % 2, n, sh.b) &&
             (n > 0 ==> Saved(sh, work, n % 2, n))
    requires 0 <= j < sh.rg + if bottom then sh.RowsLeft() else sh.b
    ensures 0 <= xs[j] < |work|
    ensures RowAt(work, xs, j) == if n == 0 && j < sh.rg then 0 else n * sh.b + j - sh.rg
  {
    if j >= sh.rg {
      LocInside(sh, n % 2, j - sh.rg);
    } else {
      LocInside(sh, n % 2, sh.b + sh.rg + j);
      LocInside(sh, 0, 0);
    }
  }

  /** Rows below the last real row. */
  lemma RowsBelow(sh: Shape, work: seq<int>, xs: seq<int>, n: nat, j: int)
    requires sh.Ok() && |work| == sh.b + 2 * sh.rg && n == sh.total - 1 && Lists(sh, xs, n, true) &&
             Holds(sh, work, n % 2, n, sh.b)
    requires sh.rg + sh.RowsLeft() <= j < sh.rg + sh.RowsLeft() + 2 * sh.rg
    ensures 0 <= xs[j] < |work| && RowAt(work, xs, j) == sh.height - 1
  {
    LocInside(sh, n % 2, sh.RowsLeft() - 1);
  }

  /** Rows of the groups saved from the iMCU row before, and the first group beyond them. */
  lemma RowsSaved(sh: Shape, work: seq<int>, xs: seq<int>, n: nat, j: int)
    requires sh.Ok() && |work| == sh.b + 2 * sh.rg && n > 0 && Lists(sh, xs, n, false) &&
             Holds(sh, work, n % 2, n, sh.b) && Saved(sh, work, n % 2, n)
    requires sh.b + sh.rg <= j < sh.b + 4 * sh.rg
    ensures 0 <= xs[j] < |work| && RowAt(work, xs, j) == n * sh.b - 2 * sh.rg + (j - sh.b - sh.rg)
  {
    if j < sh.b + 3 * sh.rg { LocInside(sh, n % 2, j - sh.rg); } else { LocInside(sh, n % 2, j - sh.b - 3 * sh.rg); }
  }

  lemma GroupRow(sh: Shape, n: nat, k: nat)
    requires sh.Ok()
    ensures (n * sh.m + k) * sh.rg == n * sh.b + k * sh.rg
  {
    Distribute(n * sh.m, k, sh.rg);
    Reassociate(n, sh.m, sh.rg);
  }

  lemma Distribute(a: int, b: int, c: int)
    ensures (a + b) * c == a * c + b * c
  {
  }

  lemma Reassociate(a: int, b: int, c: int)
    ensures a * b * c == a * (c * b)
  {
  }

  lemma TimesAtMost(a: int, b: int, c: nat)
    requires a <= b
    ensures a * c <= b * c
  {
  }

  /** Group `k` of an iMCU row that is not the last: context lies within the row or above it. */
  lemma InnerWindow(sh: Shape, work: seq<int>, xs: seq<int>, n: nat, k: nat, w: seq<int>)
    requires sh.Ok() && |work| == sh.b + 2 * sh.rg && n + 1 < sh.total && k + 1 < sh.m
    requires Lists(sh, xs, n, false) && Holds(sh, work, n % 2, n, sh.b) && (n > 0 ==> Saved(sh, work, n % 2, n))
    requires IsWindow(sh, work, xs, k, w)
    ensures Shows(sh, w, n * sh.m + k)
  {
    hide Lists, Holds, Saved;
    var g, row0 := n * sh.m + k, n * sh.b + k * sh.rg - sh.rg;
    GroupRow(sh, n, k);
    TimesAtMost(k + 2, sh.m, sh.rg);
    Distribute(k, 2, sh.rg);
    TimesAtMost(n + 1, sh.total - 1, sh.b);
    Distribute(n, 1, sh.b);
    NotBeforeLast(sh, n, k);
    forall t | 0 <= t < 3 * sh.rg
      ensures w[t] == sh.Clamp(row0 + t)
    {
      RowsOfImcu(sh, work, xs, n, false, k * sh.rg + t);
      if n > 0 { TimesAtMost(1, n, sh.b); }
      if k > 0 { TimesAtMost(1, k, sh.rg); }
    }
  }

  lemma NotBeforeLast(sh: Shape, n: nat, k: nat)
    requires sh.Ok() && k + 1 < sh.m
    ensures !sh.BeforeLast(n * sh.m + k)
  {
    var t := sh.total - 1;
    if n < t { TimesAtMost(n + 1, t, sh.m); } else { TimesAtMost(t, n, sh.m); }
    Distribute(n, 1, sh.m);
  }

  /** `w` is window `k` of the list. */
  predicate IsWindow(sh: Shape, work: seq<int>, xs: seq<int>, k: nat, w: seq<int>) {
    |w| == 3 * sh.rg && forall t :: 0 <= t < 3 * sh.rg ==> InWindow(work, xs, k * sh.rg + t, w[t])
  }

  predicate InWindow(work: seq<int>, xs: seq<int>, j: int, row: int) {
    0 <= j < |xs| && 0 <= xs[j] < |work| && row == RowAt(work, xs, j)
  }

  /** A row shown in the last iMCU row. */
  lemma BottomRow(sh: Shape, work: seq<int>, xs: seq<int>, n: nat, base: nat, t: nat)
    requires sh.Ok() && |work| == sh.b + 2 * sh.rg && n == sh.total - 1 && base + 1 <= sh.RowsLeft() && t < 3 * sh.rg &&
             (n > 0 ==> n * sh.b >= sh.b)
    requires Lists(sh, xs, n, true) && Holds(sh, work, n % 2, n, sh.b) && (n > 0 ==> Saved(sh, work, n % 2, n))
    requires base > 0 ==> base >= sh.rg
    ensures InWindow(work, xs, base + t, sh.Clamp(n * sh.b + base - sh.rg + t))
  {
    var j := base + t;
    if j < sh.rg + sh.RowsLeft() { RowsOfImcu(sh, work, xs, n, true, j); } else { RowsBelow(sh, work, xs, n, j); }
  }

  /** Group `k` of the last iMCU row. */
  lemma BottomWindow(sh: Shape, work: seq<int>, xs: seq<int>, k: nat, w: seq<int>)
    requires sh.Ok() && |work| == sh.b + 2 * sh.rg && k < sh.LastGroups()
    requires var n := sh.total - 1;
             Lists(sh, xs, n, true) && Holds(sh, work, n % 2, n, sh.b) && (n > 0 ==> Saved(sh, work, n % 2, n))
    requires IsWindow(sh, work, xs, k, w)
    ensures Shows(sh, w, (sh.total - 1) * sh.m + k)
  {
    hide Lists, Holds, Saved;
    var n: nat := sh.total - 1;
    GroupRow(sh, n, k);
    GroupWithin(sh, k);
    if n > 0 { TimesAtMost(1, n, sh.b); }
    if k > 0 { TimesAtMost(1, k, sh.rg); }
    forall t: nat | t < 3 * sh.rg
      ensures w[t] == sh.Clamp(n * sh.b + k * sh.rg - sh.rg + t)
    {
      BottomRow(sh, work, xs, n, k * sh.rg, t);
    }
  }

  /** A real group of the last iMCU row begins above the bottom of the image. */
  lemma GroupWithin(sh: Shape, k: nat)
    requires sh.Ok() && k < sh.LastGroups()
    ensures k * sh.rg + 1 <= sh.RowsLeft() && !sh.BeforeLast((sh.total - 1) * sh.m + k)
  {
    var q := (sh.RowsLeft() - 1) / sh.rg;
    TimesAtMost(k, q, sh.rg);
    assert q * sh.rg <= sh.RowsLeft() - 1;
  }

  /** The last group of iMCU row `n` - 1, presented once iMCU row `n` is there. */
  lemma PostponedWindow(sh: Shape, work: seq<int>, xs: seq<int>, n: nat, w: seq<int>)
    requires sh.Ok() && |work| == sh.b + 2 * sh.rg && 0 < n < sh.total
    requires Lists(sh, xs, n, false) && Holds(sh, work, n % 2, n, sh.b) && Saved(sh, work, n % 2, n)
    requires IsWindow(sh, work, xs, sh.m + 1, w)
    ensures Shows(sh, w, n * sh.m - 1)
  {
    hide Lists, Holds, Saved;
    var row0 := n * sh.b - 2 * sh.rg;
    GroupRow(sh, n - 1, sh.m - 1);
    Distribute(sh.m, 1, sh.rg);
    Distribute(sh.m, -1, sh.rg);
    Distribute(n, -1, sh.b);
    Distribute(n, -1, sh.m);
    TimesAtMost(1, n, sh.b);
    TimesAtMost(n, sh.total - 1, sh.b);
    if n + 1 < sh.total {
      TimesAtMost(n + 1, sh.total - 1, sh.b);
      Distribute(n, 1, sh.b);
      TimesAtMost(n + 1, sh.total - 1, sh.m);
      Distribute(n, 1, sh.m);
    }
    forall t | 0 <= t < 3 * sh.rg
      ensures w[t] == row0 + t
    {
      RowsSaved(sh, work, xs, n, (sh.m + 1) * sh.rg + t);
    }
  }

  /** Every window shows the true context exactly when the last iMCU row has at least one whole
      real row group (or is the only one). */
  lemma ContextTrueExactly(sh: Shape)
    requires sh.Ok()
    ensures (forall g: nat, t: nat :: g < sh.Groups() && t < 3 * sh.rg ==> TrueAt(sh, g, t)) <==>
            sh.total == 1 || sh.RowsLeft() >= sh.rg
  {
    var last := (sh.total - 1) * sh.m - 1;
    if sh.total >= 2 {
      GroupRow(sh, sh.total - 2, sh.m - 1);
      Distribute(sh.total - 1, -1, sh.b);
      Distribute(sh.total - 1, -1, sh.m);
      Distribute(sh.m, -1, sh.rg);
      TimesAtMost(1, sh.total - 1, sh.m);
      TimesAtMost(1, sh.total - 1, sh.b);
      assert last * sh.rg == (sh.total - 1) * sh.b - sh.rg;
      if sh.RowsLeft() < sh.rg { assert !TrueAt(sh, last, 2 * sh.rg + sh.RowsLeft()); }
    }
    forall g: nat, t: nat | g < sh.Groups() && t < 3 * sh.rg && (sh.total == 1 || sh.RowsLeft() >= sh.rg)
      ensures TrueAt(sh, g, t)
    {
      if sh.BeforeLast(g) { assert g == last; }
    }
  }

  /** 17 rows, two to a group, sixteen to an iMCU row: the last group of the first iMCU row
      shows row 17, which is not there, where row 16 should be repeated. */
  lemma BottomTakenEarly()
    ensures var sh := Shape(2, 8, 16, 17, 2);
            sh.Ok() && 7 < sh.Groups() && sh.Expected(7, 5) == 17 && sh.Clamp(7 * 2 - 2 + 5) == 16
  {
    assert Shape(2, 8, 16, 17, 2).RowsLeft() == 1;
  }

  predicate TrueAt(sh: Shape, g: nat, t: nat)
    requires sh.Ok()
  {
    sh.Expected(g, t) == sh.Clamp(g * sh.rg - sh.rg + t)
  }

  /** The nearest row below, all that the existing upsamplers look at, is always the true one. */
  lemma NearestRowsTrue(sh: Shape, g: nat, t: nat)
    requires sh.Ok() && g < sh.Groups() && sh.rg - 1 <= t <= 2 * sh.rg
    ensures TrueAt(sh, g, t)
  {
    if sh.BeforeLast(g) {
      GroupRow(sh, sh.total - 2, sh.m - 1);
      Distribute(sh.total - 1, -1, sh.b);
      Distribute(sh.total - 1, -1, sh.m);
      Distribute(sh.m, -1, sh.rg);
    }
  }

  // ---- the controller

  /** Both lists in their normal state. */
  predicate Normal(sh: Shape, xs: seq<int>, p: nat)
    requires sh.Ok()
  {
    |xs| == sh.b + 4 * sh.rg && Regular(sh, xs, p, sh.b + 2 * sh.rg) && WrapAbove(sh, xs, p) && WrapBelow(sh, xs, p)
  }

  /** What the workspace must keep when iMCU row `n` has been processed. */
  lemma SavedNext(sh: Shape, work: seq<int>, n: nat)
    requires sh.Ok() && |work| == sh.b + 2 * sh.rg && Holds(sh, work, n % 2, n, sh.b)
    ensures Saved(sh, work, (n + 1) % 2, n + 1)
  {
    Distribute(n, 1, sh.b);
    var p := (n + 1) % 2;
    forall i | sh.b <= i < sh.b + 2 * sh.rg
      ensures work[Loc(sh, p, i)] == (n + 1) * sh.b - 2 * sh.rg + (i - sh.b)
    {
      LocSwapped(sh, p, i - sh.b);
      LocInside(sh, n % 2, i - 2 * sh.rg);
      assert work[Loc(sh, n % 2, i - 2 * sh.rg)] == n * sh.b + (i - 2 * sh.rg);
    }
  }

  /** The last four groups swapped up to row `i` of each pair. */
  predicate SwappedTo(sh: Shape, xs: seq<int>, i: nat)
    requires sh.Ok()
  {
    |xs| == sh.b + 4 * sh.rg && i <= 2 * sh.rg &&
    forall k :: sh.rg <= k < 3 * sh.rg + sh.b ==>
      xs[k] == if sh.b - sh.rg <= k < sh.b - sh.rg + i then k + sh.rg else if sh.b + sh.rg <= k < sh.b + sh.rg + i
        then k - 3 * sh.rg else k - sh.rg
  }

  /** The wraparound rows set up to row `i`. */
  predicate WrappedTo(sh: Shape, xs: seq<int>, p: nat, i: nat)
    requires sh.Ok()
  {
    Regular(sh, xs, p, sh.b + 2 * sh.rg) && i <= sh.rg &&
    (forall k :: 0 <= k < i ==> xs[k] == Loc(sh, p, sh.b + sh.rg + k)) &&
    (forall k :: sh.b + 3 * sh.rg <= k < sh.b + 3 * sh.rg + i ==> xs[k] == Loc(sh, p, k - sh.b - 3 * sh.rg))
  }

  lemma WrappedNext(sh: Shape, xs: seq<int>, ys: seq<int>, p: nat, i: nat)
    requires sh.Ok() && WrappedTo(sh, xs, p, i) && i < sh.rg && |ys| == |xs|
    requires ys == xs[i := xs[sh.rg + sh.b + sh.rg + i]][sh.rg + sh.b + 2 * sh.rg + i := xs[sh.rg + i]]
    ensures WrappedTo(sh, ys, p, i + 1)
  {
  }

  class MainController {
    const sh: Shape
    const work: array<int>
    const x0: array<int>
    const x1: array<int>
    var whichptr: nat
    var contextState: State
    var rowgroupCtr: nat
    var rowgroupsAvail: nat
    var imcuRowCtr: nat
    var bufferFull: bool

    predicate Shaped()
      reads `whichptr
    {
      sh.Ok() && work.Length == sh.b + 2 * sh.rg && x0.Length == x1.Length == sh.b + 4 * sh.rg && work != x0 &&
      work != x1 && x0 != x1 &&
      whichptr < 2
    }

    function List(p: nat): array<int>
    {
      if p == 0 then x0 else x1
    }

    /** Row groups presented so far. */
    function Presented(): int
      requires sh.Ok()
      reads this
    {
      if imcuRowCtr == 0 then 0
      else
        var n := imcuRowCtr - 1;
        match contextState
        case PrepareForImcu => n * sh.m
        case ProcessImcu => n * sh.m + rowgroupCtr
        case PostponedRow => if bufferFull then n * sh.m - 1 else if n + 1 == sh.total then sh.Groups()
            else n * sh.m + sh.m - 1
    }

    predicate Finished()
      reads this
    {
      imcuRowCtr == sh.total && contextState == PostponedRow && !bufferFull
    }

    /** iMCU row `n` is loaded. */
    predicate Loaded(n: nat, bottom: bool)
      reads this, work, x0, x1
    {
      Shaped() && bufferFull && imcuRowCtr == n + 1 <= sh.total && whichptr == n % 2 &&
      Lists(sh, List(whichptr)[..], n, bottom) && Holds(sh, work[..], whichptr, n, sh.b) &&
      (n > 0 ==> Saved(sh, work[..], whichptr, n)) &&
      (if n == 0 then Regular(sh, x1[..], 1, sh.b + 2 * sh.rg) else Normal(sh, List(1 - whichptr)[..], 1 - whichptr))
    }

    predicate Valid()
      reads this, work, x0, x1
    {
      Shaped() &&
      match contextState
      case PrepareForImcu =>
        if bufferFull then imcuRowCtr > 1 && Loaded(imcuRowCtr - 1, false)
        else
          imcuRowCtr == 0 && whichptr == 0 && Lists(sh, x0[..], 0, false) && Regular(sh, x1[..], 1, sh.b + 2 * sh.rg)
      case ProcessImcu =>
        imcuRowCtr > 0 && Loaded(imcuRowCtr - 1, imcuRowCtr == sh.total) && rowgroupCtr < rowgroupsAvail &&
        rowgroupsAvail == if imcuRowCtr == sh.total then sh.LastGroups() else sh.m - 1
      case PostponedRow =>
        rowgroupCtr == sh.m + 1 && rowgroupsAvail == sh.m + 2 && imcuRowCtr > 0 &&
        if bufferFull then imcuRowCtr > 1 && Loaded(imcuRowCtr - 1, false)
        else imcuRowCtr == sh.total ||
             (imcuRowCtr < sh.total && whichptr == imcuRowCtr % 2 && Normal(sh, x0[..], 0) && Normal(sh, x1[..], 1) &&
              Saved(sh, work[..], whichptr, imcuRowCtr))
    }

    /** make_funny_pointers and start_pass_main. */
    constructor (sh: Shape)
      requires sh.Ok()
      ensures Valid() && this.sh == sh && Presented() == 0 && !Finished() && fresh(work) && fresh(x0) && fresh(x1)
    {
      this.sh := sh;
      var rg, b := sh.rg, sh.b;
      work := new int[b + 2 * rg](_ => -1);
      x0 := new int[b + 4 * rg];
      x1 := new int[b + 4 * rg];
      whichptr, contextState, imcuRowCtr, bufferFull := 0, PrepareForImcu, 0, false;
      rowgroupCtr, rowgroupsAvail := 0, 0;
      new;
      MakeFunnyPointers();
    }

    method MakeFunnyPointers()
      requires Shaped()
      modifies x0, x1
      ensures Lists(sh, x0[..], 0, false) && Regular(sh, x1[..], 1, sh.b + 2 * sh.rg)
    {
      CopyWorkspace();
      SwapLastGroups();
      for i := 0 to sh.rg
        invariant Regular(sh, x0[..], 0, sh.b + 2 * sh.rg) && forall k :: 0 <= k < i ==> x0[k] == 0
        modifies x0
      {
        x0[i] := x0[sh.rg];
      }
    }

    /** First copy the workspace pointers as they are. */
    method CopyWorkspace()
      requires Shaped()
      modifies x0, x1
      ensures Regular(sh, x0[..], 0, sh.b + 2 * sh.rg) && Regular(sh, x1[..], 0, sh.b + 2 * sh.rg)
    {
      for i := 0 to sh.b + 2 * sh.rg
        invariant Regular(sh, x0[..], 0, i) && Regular(sh, x1[..], 0, i)
      {
        x0[sh.rg + i] := i;
        x1[sh.rg + i] := i;
      }
    }

    /** In the second list, put the last four row groups in swapped order. */
    method SwapLastGroups()
      requires Shaped() && Regular(sh, x1[..], 0, sh.b + 2 * sh.rg)
      modifies x1
      ensures Regular(sh, x1[..], 1, sh.b + 2 * sh.rg)
    {
      for i := 0 to 2 * sh.rg
        invariant SwappedTo(sh, x1[..], i)
      {
        x1[sh.rg + (sh.b - 2 * sh.rg) + i] := sh.b + i;
        x1[sh.rg + sh.b + i] := sh.b - 2 * sh.rg + i;
      }
    }

    /** set_wraparound_pointers, from the top-of-image state to the normal state. */
    method SetWraparoundPointers()
      requires Shaped()
      modifies x0, x1
      ensures old(Regular(sh, x0[..], 0, sh.b + 2 * sh.rg) && Regular(sh, x1[..], 1, sh.b + 2 * sh.rg)) ==>
                Normal(sh, x0[..], 0) && Normal(sh, x1[..], 1)
    {
      ghost var regular := Regular(sh, x0[..], 0, sh.b + 2 * sh.rg) && Regular(sh, x1[..], 1, sh.b + 2 * sh.rg);
      for i := 0 to sh.rg
        invariant regular ==> WrappedTo(sh, x0[..], 0, i) && WrappedTo(sh, x1[..], 1, i)
      {
        WrapOne(x0, 0, i);
        WrapOne(x1, 1, i);
      }
    }

    /** One row above and one row below of one list. */
    method WrapOne(xs: array<int>, ghost p: nat, i: nat)
      requires Shaped() && xs.Length == sh.b + 4 * sh.rg && i < sh.rg
      modifies xs
      ensures old(WrappedTo(sh, xs[..], p, i)) ==> WrappedTo(sh, xs[..], p, i + 1)
    {
      hide WrappedTo;
      ghost var before := xs[..];
      xs[i] := xs[sh.rg + sh.b + sh.rg + i];
      xs[sh.rg + sh.b + 2 * sh.rg + i] := xs[sh.rg + i];
      if WrappedTo(sh, before, p, i) { WrappedNext(sh, before, xs[..], p, i); }
    }

    /** set_bottom_pointers. */
    method SetBottomPointers()
      requires Shaped() && imcuRowCtr == sh.total && whichptr == (sh.total - 1) % 2 &&
               Lists(sh, List(whichptr)[..], sh.total - 1, false)
      modifies List(whichptr), `rowgroupsAvail
      ensures Lists(sh, List(whichptr)[..], sh.total - 1, true) && rowgroupsAvail == sh.LastGroups()
    {
      var rowsLeft := RowsLeftOf();
      rowgroupsAvail := (rowsLeft - 1) / sh.rg + 1;
      DuplicateLast(List(whichptr), sh.total - 1, rowsLeft);
    }

    /** Duplicate the last real sample row 2 rg times. */
    method DuplicateLast(xs: array<int>, ghost n: nat, rowsLeft: nat)
      requires Shaped() && rowsLeft == sh.RowsLeft() && xs.Length == sh.b + 4 * sh.rg && Lists(sh, xs[..], n, false)
      modifies xs
      ensures Lists(sh, xs[..], n, true)
    {
      for i := 0 to 2 * sh.rg
        invariant forall k :: 0 <= k < sh.rg + rowsLeft ==> xs[k] == old(xs[k])
        invariant forall k :: sh.rg + rowsLeft <= k < sh.rg + rowsLeft + i ==> xs[k] == Loc(sh, n % 2, rowsLeft - 1)
      {
        xs[sh.rg + rowsLeft + i] := xs[sh.rg + rowsLeft - 1];
      }
    }

    /** decompress_data into the current list: one iMCU row, rows beyond the image included. */
    method LoadImcu(n: nat)
      requires Shaped() && n < sh.total && whichptr == n % 2 && Lists(sh, List(whichptr)[..], n, false) &&
               (n > 0 ==> Saved(sh, work[..], whichptr, n))
      modifies work
      ensures Holds(sh, work[..], whichptr, n, sh.b) && (n > 0 ==> Saved(sh, work[..], whichptr, n))
    {
      var xs := List(whichptr);
      for i := 0 to sh.b
        invariant Holds(sh, work[..], whichptr, n, i) && (n > 0 ==> Saved(sh, work[..], whichptr, n))
      {
        StoreRow(xs, n, i);
      }
    }

    method StoreRow(xs: array<int>, n: nat, i: nat)
      requires Shaped() && xs == List(whichptr) && i < sh.b && Regular(sh, xs[..], whichptr, sh.b + 2 * sh.rg)
      requires Holds(sh, work[..], whichptr, n, i) && (n > 0 ==> Saved(sh, work[..], whichptr, n))
      modifies work
      ensures Holds(sh, work[..], whichptr, n, i + 1) && (n > 0 ==> Saved(sh, work[..], whichptr, n))
    {
      LocInside(sh, whichptr, i);
      ghost var w := work[..];
      assert xs[..][sh.rg + i] == Loc(sh, whichptr, i);
      work[xs[sh.rg + i]] := n * sh.b + i;
      assert work[..] == w[Loc(sh, whichptr, i) := n * sh.b + i];
      forall j | 0 <= j < sh.b + 2 * sh.rg && j != i
        ensures Loc(sh, whichptr, j) != Loc(sh, whichptr, i)
      {
        if j < i { LocDistinct(sh, whichptr, j, i); } else { LocDistinct(sh, whichptr, i, j); }
      }
    }

    /** post_process_data as far as this controller is concerned: it swallows up to `take` of the
        available row groups and sees a window for each. */
    method PostProcess(take: nat, ghost g0: int) returns (windows: seq<seq<int>>)
      requires Shaped() && rowgroupCtr <= rowgroupsAvail && GroupsShow(rowgroupCtr, rowgroupsAvail, g0)
      modifies `rowgroupCtr
      ensures rowgroupCtr == if take < rowgroupsAvail - old(rowgroupCtr) then old(rowgroupCtr) + take
                else rowgroupsAvail
      ensures |windows| == rowgroupCtr - old(rowgroupCtr) && AllShow(sh, windows, g0 + old(rowgroupCtr))
    {
      windows := [];
      while rowgroupCtr < rowgroupsAvail && |windows| < take
        invariant old(rowgroupCtr) <= rowgroupCtr <= rowgroupsAvail && |windows| == rowgroupCtr - old(rowgroupCtr) &&
                  |windows| <= take
        invariant AllShow(sh, windows, g0 + old(rowgroupCtr)) && GroupsShow(rowgroupCtr, rowgroupsAvail, g0)
        decreases rowgroupsAvail - rowgroupCtr
      {
        var w := TakeOne(g0);
        AllShowMore(sh, windows, g0 + old(rowgroupCtr), w);
        windows := windows + [w];
      }
    }

    /** The postprocessor takes one row group. */
    method TakeOne(ghost g0: int) returns (w: seq<int>)
      requires Shaped() && rowgroupCtr < rowgroupsAvail && GroupsShow(rowgroupCtr, rowgroupsAvail, g0)
      modifies `rowgroupCtr
      ensures rowgroupCtr == old(rowgroupCtr) + 1 && GroupsShow(rowgroupCtr, rowgroupsAvail, g0)
      ensures ShowsGroup(sh, w, g0 + old(rowgroupCtr))
    {
      assert GroupAt(rowgroupCtr, g0);
      w := CutWindow(rowgroupCtr, g0 + rowgroupCtr);
      rowgroupCtr := rowgroupCtr + 1;
    }

    /** Groups `lo` to `hi` - 1 of the current list, if presented, show groups `g0` + `lo` and so on
        of the image, with their context. */
    ghost predicate GroupsShow(lo: nat, hi: nat, g0: int)
      requires Shaped()
      reads `whichptr, work, x0, x1
    {
      forall k: nat :: lo <= k < hi ==> GroupAt(k, g0)
    }

    ghost predicate GroupAt(k: nat, g0: int)
      requires Shaped()
      reads `whichptr, work, x0, x1
    {
      GroupShows(k, g0 + k)
    }

    ghost predicate GroupShows(k: nat, g: int)
      requires Shaped()
      reads `whichptr, work, x0, x1
    {
      g >= 0 && (forall j :: k * sh.rg <= j < k * sh.rg + 3 * sh.rg ==> Visible(j)) &&
      forall w: seq<int> :: IsWindow(sh, work[..], List(whichptr)[..], k, w) ==> Shows(sh, w, g)
    }

    predicate Visible(j: int)
      requires Shaped()
      reads `whichptr, work, x0, x1
    {
      0 <= j < sh.b + 4 * sh.rg && 0 <= List(whichptr)[j] < work.Length
    }

    /** The rows the postprocessor sees around group `k`. */
    method CutWindow(k: nat, ghost g: nat) returns (w: seq<int>)
      requires Shaped() && GroupShows(k, g)
      ensures Shows(sh, w, g)
    {
      var xs := List(whichptr);
      w := [];
      for t := 0 to 3 * sh.rg
        invariant |w| == t && forall u :: 0 <= u < t ==> InWindow(work[..], xs[..], k * sh.rg + u, w[u])
      {
        assert Visible(k * sh.rg + t);
        w := w + [work[xs[k * sh.rg + t]]];
      }
    }

    /** All entries of a list that any window reaches are places in the workspace. */
    lemma ListVisible(n: nat, bottom: bool, j: int)
      requires Shaped() && whichptr == n % 2 && Lists(sh, List(whichptr)[..], n, bottom)
      requires 0 <= j < if bottom then sh.RowsLeft() + 3 * sh.rg else if n == 0 then sh.b + 3 * sh.rg
                 else sh.b + 4 * sh.rg
      ensures Visible(j)
    {
      var xs := List(whichptr)[..];
      var p := n % 2;
      LocInside(sh, p, 0);
      if j < sh.rg {
        LocInside(sh, p, sh.b + sh.rg + j);
      } else if bottom && j >= sh.rg + sh.RowsLeft() {
        LocInside(sh, p, sh.RowsLeft() - 1);
      } else if j < sh.b + 3 * sh.rg {
        LocInside(sh, p, j - sh.rg);
      } else {
        LocInside(sh, p, j - sh.b - 3 * sh.rg);
      }
    }

    /** The groups of iMCU row `n` that can be presented at once. */
    lemma GroupsOfImcu(n: nat, hi: nat)
      requires n < sh.total && Loaded(n, n + 1 == sh.total) &&
               hi == if n + 1 == sh.total then sh.LastGroups() else sh.m - 1
      ensures GroupsShow(0, hi, n * sh.m)
    {
      forall k: nat | k < hi
        ensures GroupAt(k, n * sh.m)
      {
        RowsOfGroup(n, k);
        GroupOfImcu(n, k);
      }
    }

    lemma RowsOfGroup(n: nat, k: nat)
      requires n < sh.total && Loaded(n, n + 1 == sh.total) &&
               k < if n + 1 == sh.total then sh.LastGroups() else sh.m - 1
      ensures forall j :: k * sh.rg <= j < k * sh.rg + 3 * sh.rg ==> Visible(j)
    {
      var bottom := n + 1 == sh.total;
      if bottom {
        GroupWithin(sh, k);
      } else {
        TimesAtMost(k + 2, sh.m, sh.rg);
        Distribute(k, 2, sh.rg);
      }
      forall j | k * sh.rg <= j < k * sh.rg + 3 * sh.rg
        ensures Visible(j)
      {
        ListVisible(n, bottom, j);
      }
    }

    lemma GroupOfImcu(n: nat, k: nat)
      requires n < sh.total && Loaded(n, n + 1 == sh.total) &&
               k < if n + 1 == sh.total then sh.LastGroups() else sh.m - 1
      requires forall j :: k * sh.rg <= j < k * sh.rg + 3 * sh.rg ==> Visible(j)
      ensures GroupShows(k, n * sh.m + k)
    {
      var s, xs := work[..], List(whichptr)[..];
      forall w: seq<int> | IsWindow(sh, s, xs, k, w)
        ensures Shows(sh, w, n * sh.m + k)
      {
        WindowOfImcu(s, xs, n, k, w);
      }
    }

    lemma WindowOfImcu(s: seq<int>, xs: seq<int>, n: nat, k: nat, w: seq<int>)
      requires Shaped() && |s| == sh.b + 2 * sh.rg && n < sh.total && Lists(sh, xs, n, n + 1 == sh.total) &&
               Holds(sh, s, n % 2, n, sh.b)
      requires (n > 0 ==> Saved(sh, s, n % 2, n)) && k < if n + 1 == sh.total then sh.LastGroups() else sh.m - 1
      requires IsWindow(sh, s, xs, k, w)
      ensures Shows(sh, w, n * sh.m + k)
    {
      if n + 1 == sh.total { BottomWindow(sh, s, xs, k, w); } else { InnerWindow(sh, s, xs, n, k, w); }
    }

    lemma PostponedGroup(n: nat)
      requires 0 < n < sh.total && Loaded(n, false)
      ensures GroupsShow(sh.m + 1, sh.m + 2, n * sh.m - 1 - (sh.m + 1))
    {
      var k := sh.m + 1;
      TimesAtMost(1, n, sh.m);
      Distribute(sh.m, 1, sh.rg);
      forall j | k * sh.rg <= j < k * sh.rg + 3 * sh.rg
        ensures Visible(j)
      {
        ListVisible(n, false, j);
      }
      forall w: seq<int> | IsWindow(sh, work[..], List(whichptr)[..], k, w)
        ensures Shows(sh, w, n * sh.m - 1)
      {
        PostponedWindow(sh, work[..], List(whichptr)[..], n, w);
      }
      assert GroupAt(k, n * sh.m - 1 - k);
    }

    /** Read an iMCU row if the buffer is empty and input is there. */
    method FillBuffer(ready: bool)
      requires Valid() && !Finished()
      modifies `bufferFull, `imcuRowCtr, work
      ensures bufferFull == (old(bufferFull) || ready)
      ensures if bufferFull then imcuRowCtr > 0 && Stage() else Valid() && imcuRowCtr == old(imcuRowCtr)
      ensures Presented() == old(Presented())
    {
      if !bufferFull && ready {
        ghost var n := imcuRowCtr;
        LoadImcu(imcuRowCtr);
        bufferFull := true;
        imcuRowCtr := imcuRowCtr + 1;
        Distribute(n, -1, sh.m);
      }
    }

    /** The buffer is full, in any state of the machine. */
    predicate Stage()
      reads this, work, x0, x1
    {
      imcuRowCtr > 0 &&
      match contextState
      case PrepareForImcu => Loaded(imcuRowCtr - 1, false)
      case ProcessImcu =>
        Loaded(imcuRowCtr - 1, imcuRowCtr == sh.total) && rowgroupCtr < rowgroupsAvail &&
        rowgroupsAvail == NowAvailable()
      case PostponedRow =>
        imcuRowCtr > 1 && Loaded(imcuRowCtr - 1, false) && rowgroupCtr == sh.m + 1 && rowgroupsAvail == sh.m + 2
    }

    function NowAvailable(): nat
      requires sh.Ok()
      reads this
    {
      if imcuRowCtr == sh.total then sh.LastGroups() else sh.m - 1
    }

    /** The postponed row group. */
    method FeedPostponed(take: nat) returns (windows: seq<seq<int>>)
      requires Stage() && contextState == PostponedRow
      modifies `rowgroupCtr, `contextState
      ensures Stage() && bufferFull && Presented() == old(Presented()) + |windows| &&
              AllShow(sh, windows, old(Presented()))
      ensures contextState == (if take == 0 then PostponedRow else PrepareForImcu) && (|windows| > 0 <==> take > 0)
    {
      hide AllShow;
      PostponedGroup(imcuRowCtr - 1);
      windows := PostProcess(take, (imcuRowCtr - 1) * sh.m - 1 - (sh.m + 1));
      if rowgroupCtr >= rowgroupsAvail { contextState := PrepareForImcu; }
    }

    /** Prepare to process the row groups of this iMCU row. */
    method Prepare()
      requires Stage() && contextState == PrepareForImcu
      modifies this, x0, x1
      ensures Stage() && bufferFull && contextState == ProcessImcu && Presented() == old(Presented()) &&
              imcuRowCtr == old(imcuRowCtr)
    {
      hide AllShow, Holds, Saved, Lists;
      rowgroupCtr := 0;
      rowgroupsAvail := sh.m - 1;
      if imcuRowCtr == sh.total { SetBottomPointers(); }
      contextState := ProcessImcu;
      SomeGroup(sh);
    }

    /** The row groups of this iMCU row, all but the last of them unless it is the last iMCU row. */
    method FeedImcu(take: nat) returns (windows: seq<seq<int>>)
      requires Stage() && contextState == ProcessImcu
      modifies this, x0, x1
      ensures Valid() && Presented() == old(Presented()) + |windows| && AllShow(sh, windows, old(Presented())) &&
              (|windows| > 0 <==> take > 0)
    {
      ghost var n := imcuRowCtr - 1;
      GroupsOfRest(n);
      windows := PostProcess(take, n * sh.m);
      if rowgroupCtr < rowgroupsAvail {
        ImcuValid();
      } else {
        FinishImcu();
      }
    }

    /** The row groups of the iMCU row are presented up to rowgroupCtr. */
    predicate Feeding()
      reads this, work, x0, x1
    {
      contextState == ProcessImcu && imcuRowCtr > 0 && Loaded(imcuRowCtr - 1, imcuRowCtr == sh.total) &&
      rowgroupCtr <= rowgroupsAvail && rowgroupsAvail == NowAvailable()
    }

    lemma ImcuValid()
      requires Feeding() && rowgroupCtr < rowgroupsAvail
      ensures Valid()
    {
    }

    /** How the lists stand while row groups of an iMCU row that is not the last are fed. */
    lemma ListsFed()
      requires Feeding()
      ensures Shaped()
      ensures imcuRowCtr < sh.total ==>
              if imcuRowCtr == 1 then Regular(sh, x0[..], 0, sh.b + 2 * sh.rg) &&
              Regular(sh, x1[..], 1, sh.b + 2 * sh.rg)
              else Normal(sh, x0[..], 0) && Normal(sh, x1[..], 1)
    {
      hide Holds, Saved, Regular, WrapAbove, WrapBelow, TopAbove;
    }

    /** After the first iMCU row the lists are wrapped around. */
    method WrapOnce()
      requires Feeding()
      modifies x0, x1
      ensures imcuRowCtr < sh.total ==> Normal(sh, x0[..], 0) && Normal(sh, x1[..], 1)
    {
      hide Normal, Regular, Loaded, Shape.LastGroups;
      ListsFed();
      if imcuRowCtr == 1 { SetWraparoundPointers(); }
    }

    /** After the row groups of this iMCU row: change to the other list, and ask for the next iMCU row. */
    method FinishImcu()
      requires Feeding() && rowgroupCtr == rowgroupsAvail
      modifies this, x0, x1
      ensures Valid() && Presented() == old(Presented())
    {
      hide Normal, Lists, Regular, WrapAbove, WrapBelow, Holds, Saved, Shape.LastGroups;
      SavedNext(sh, work[..], imcuRowCtr - 1);
      ghost var before := work[..];
      WrapOnce();
      assert work[..] == before;
      whichptr := 1 - whichptr;
      bufferFull := false;
      rowgroupCtr := sh.m + 1;
      rowgroupsAvail := sh.m + 2;
      contextState := PostponedRow;
    }

    lemma GroupsOfRest(n: nat)
      requires Stage() && contextState == ProcessImcu && n == imcuRowCtr - 1
      ensures GroupsShow(rowgroupCtr, rowgroupsAvail, n * sh.m)
    {
      GroupsOfImcu(n, rowgroupsAvail);
      forall k: nat | rowgroupCtr <= k < rowgroupsAvail
        ensures GroupAt(k, n * sh.m)
      {
      }
    }

    /** process_data_context_main: however little the postprocessor takes at a time and however
        often input or output run short, the row groups of the image are presented in order, each
        once, each with its context. */
    method ProcessDataContext(ready: bool, take1: nat, outFull: bool, take2: nat) returns (windows: seq<seq<int>>)
      requires Valid() && !Finished()
      modifies this, work, x0, x1
      ensures Valid() && Presented() == old(Presented()) + |windows| && AllShow(sh, windows, old(Presented()))
      ensures ready && take1 > 0 && take2 > 0 ==> |windows| > 0
      ensures Finished() ==> Presented() == sh.Groups()
    {
      hide ShowsGroup;
      windows := [];
      FillBuffer(ready);
      if !bufferFull { return; }
      var go := true;
      if contextState == PostponedRow { windows, go := FeedFirst(take1, outFull); }
      if !go { return; }
      var more := FeedRest(take2);
      AllShowJoin(sh, windows, more, old(Presented()));
      windows := windows + more;
      AllPresented();
    }

    /** The machine stops when every row group has been presented. */
    lemma AllPresented()
      requires Valid()
      ensures Finished() ==> Presented() == sh.Groups()
    {
    }

    /** Where the machine stands, whatever the lists and the workspace hold. */
    predicate Counted()
      requires sh.Ok()
      reads this
    {
      imcuRowCtr <= sh.total &&
      match contextState
      case PrepareForImcu => if bufferFull then imcuRowCtr > 1 else imcuRowCtr == 0
      case ProcessImcu => imcuRowCtr > 0 && rowgroupCtr < NowAvailable()
      case PostponedRow => if bufferFull then imcuRowCtr > 1 else imcuRowCtr > 0
    }

    lemma ValidCounted()
      requires Valid()
      ensures sh.Ok() && Counted()
    {
      hide Lists, Regular, Normal, Saved, Holds, Shape.Ok, Shape.LastGroups;
    }

    /** ... and not before. */
    lemma SomeLeft()
      requires Valid() && !Finished()
      ensures 0 <= Presented() < sh.Groups()
    {
      hide Valid, Shape.Ok, Shape.LastGroups, Shape.Groups;
      ValidCounted();
      SomeGroup(sh);
      if imcuRowCtr == 0 {
        GroupLeft(sh, 0, 0);
      } else {
        var n := imcuRowCtr - 1;
        var k := Presented() - n * sh.m;
        GroupLeft(sh, n, k);
      }
    }

    /** The postponed row group, and whether to go on after it. */
    method FeedFirst(take: nat, outFull: bool) returns (windows: seq<seq<int>>, go: bool)
      requires Stage() && contextState == PostponedRow
      modifies `rowgroupCtr, `contextState
      ensures Presented() == old(Presented()) + |windows| && AllShow(sh, windows, old(Presented())) &&
              (|windows| > 0 <==> take > 0)
      ensures if go then Stage() && contextState == PrepareForImcu else Valid() && !Finished()
    {
      windows := FeedPostponed(take);
      go := contextState != PostponedRow && !outFull;
      if !go { StageValid(); }
    }

    /** The other cases of the switch. */
    method FeedRest(take: nat) returns (windows: seq<seq<int>>)
      requires Stage() && contextState != PostponedRow
      modifies this, x0, x1
      ensures Valid() && Presented() == old(Presented()) + |windows| && AllShow(sh, windows, old(Presented())) &&
              (|windows| > 0 <==> take > 0)
    {
      if contextState == PrepareForImcu { Prepare(); }
      windows := FeedImcu(take);
    }

    lemma StageValid()
      requires Stage() && bufferFull && (contextState == PrepareForImcu ==> imcuRowCtr > 1)
      ensures Valid()
    {
    }

    /** The remainder is the number of real rows in the last iMCU row. */
    method RowsLeftOf() returns (rowsLeft: nat)
      requires sh.Ok()
      ensures rowsLeft == sh.RowsLeft()
    {
      rowsLeft := sh.height % sh.b;
      if rowsLeft == 0 { rowsLeft := sh.b; }
      RemainderIs(sh.height, sh.b, sh.total - 1, sh.RowsLeft());
    }
  }

  /** One call of the decompressor: whether input is there, how much the postprocessor takes, and
      whether its output is full in between. */
  datatype Call = Call(ready: bool, take1: nat, outFull: bool, take2: nat)

  /** The calls for which input is there and of which the postprocessor takes something. */
  function UsefulCalls(calls: seq<Call>): nat {
    if calls == [] then 0
    else
      var last := calls[|calls| - 1];
      UsefulCalls(calls[..|calls| - 1]) + if last.ready && last.take1 > 0 && last.take2 > 0 then 1 else 0
  }

  /** A whole pass under any schedule of calls: what has been presented after any number of calls
      is the image from the top, group by group; once the machine is finished, all of it. It is
      finished after as many useful calls as there are row groups, whatever comes in between. */
  method PresentImage(c: MainController, calls: seq<Call>) returns (windows: seq<seq<int>>)
    requires c.Valid() && c.Presented() == 0 && !c.Finished()
    modifies c, c.work, c.x0, c.x1
    ensures c.Valid() && |windows| == c.Presented() && AllShow(c.sh, windows, 0)
    ensures c.Finished() ==>
              |windows| == c.sh.Groups() && (AllTrue(c.sh, windows) <==> c.sh.total == 1 || c.sh.RowsLeft() >= c.sh.rg)
    ensures UsefulCalls(calls) >= c.sh.Groups() ==> c.Finished()
  {
    hide AllTrue;
    assert calls[..0] == [];
    windows := [];
    var i := 0;
    while i < |calls| && !c.Finished()
      invariant 0 <= i <= |calls| && c.Valid() && |windows| == c.Presented() && AllShow(c.sh, windows, 0)
      invariant c.Finished() ==> |windows| == c.sh.Groups()
      invariant |windows| >= UsefulCalls(calls[..i])
    {
      assert calls[..i + 1][..i] == calls[..i];
      var more := c.ProcessDataContext(calls[i].ready, calls[i].take1, calls[i].outFull, calls[i].take2);
      AllShowJoin(c.sh, windows, more, 0);
      windows := windows + more;
      i := i + 1;
    }
    assert calls[..|calls|] == calls;
    if c.Finished() { WindowsTrueExactly(c.sh, windows); } else { c.SomeLeft(); }
  }

  /** A group of iMCU row `n`, or the one before them, is a group of the image. */
  lemma GroupLeft(sh: Shape, n: nat, k: int)
    requires sh.Ok() && n < sh.total
    requires (if n == 0 then 0 else -1) <= k < if n + 1 == sh.total then sh.LastGroups() else sh.m
    ensures 0 <= n * sh.m + k < sh.Groups()
  {
    SomeGroup(sh);
    GroupsBefore(n, sh.total, sh.m);
  }

  lemma GroupsBefore(n: nat, total: nat, m: nat)
    requires m >= 2 && n < total
    ensures 0 <= n * m <= (total - 1) * m && (n > 0 ==> n * m >= m)
    ensures n + 1 < total ==> n * m + m <= (total - 1) * m
  {
    Bits.MulDistribute(n, 1, m);
    Bits.MulAtLeast(0, n, m);
    Bits.MulAtLeast(n, total - 1, m);
    if n > 0 { Bits.MulAtLeast(1, n, m); }
    if n + 1 < total { Bits.MulAtLeast(n + 1, total - 1, m); }
  }

  lemma SomeGroup(sh: Shape)
    requires sh.Ok()
    ensures sh.LastGroups() >= 1 && sh.m >= 2 && sh.total >= 1
  {
  }

  predicate AllShow(sh: Shape, windows: seq<seq<int>>, g: int)
    requires sh.Ok()
  {
    forall i :: 0 <= i < |windows| ==> ShowsGroup(sh, windows[i], g + i)
  }

  predicate ShowsGroup(sh: Shape, w: seq<int>, g: int)
    requires sh.Ok()
  {
    g >= 0 && Shows(sh, w, g)
  }

  /** Every window shows the rows around its group, those at the edges of the image repeated. */
  predicate AllTrue(sh: Shape, windows: seq<seq<int>>)
    requires sh.Ok()
  {
    forall g: nat, t: nat {:trigger TrueIn(sh, windows, g, t)} :: g < |windows| && t < 3 * sh.rg ==>
        TrueIn(sh, windows, g, t)
  }

  predicate TrueIn(sh: Shape, windows: seq<seq<int>>, g: nat, t: nat)
    requires sh.Ok() && g < |windows|
  {
    t < |windows[g]| && windows[g][t] == sh.Clamp(g * sh.rg - sh.rg + t)
  }

  lemma WindowsTrueExactly(sh: Shape, windows: seq<seq<int>>)
    requires sh.Ok() && |windows| == sh.Groups() && AllShow(sh, windows, 0)
    ensures AllTrue(sh, windows) <==> sh.total == 1 || sh.RowsLeft() >= sh.rg
  {
    hide Shape.Expected, Shape.Clamp, Shape.RowsLeft, Shape.Groups, Shape.Ok;
    ContextTrueExactly(sh);
    forall g: nat, t: nat | g < |windows| && t < 3 * sh.rg
      ensures TrueIn(sh, windows, g, t) <==> TrueAt(sh, g, t)
    {
      assert ShowsGroup(sh, windows[g], 0 + g);
    }
  }

  lemma AllShowMore(sh: Shape, windows: seq<seq<int>>, g: int, w: seq<int>)
    requires sh.Ok() && AllShow(sh, windows, g) && ShowsGroup(sh, w, g + |windows|)
    ensures AllShow(sh, windows + [w], g)
  {
  }

  lemma AllShowJoin(sh: Shape, a: seq<seq<int>>, b: seq<seq<int>>, g: int)
    requires sh.Ok() && AllShow(sh, a, g) && AllShow(sh, b, g + |a|)
    ensures AllShow(sh, a + b, g)
  {
    forall i | 0 <= i < |a + b|
      ensures ShowsGroup(sh, (a + b)[i], g + i)
    {
      if i >= |a| {
        var k := i - |a|;
        assert (a + b)[i] == b[k] && g + i == g + |a| + k;
      }
    }
  }

  lemma RemainderIs(h: nat, b: nat, q: nat, r: nat)
    requires b > 0 && h == q * b + r && 1 <= r <= b
    ensures r == if h % b == 0 then b else h % b
  {
    assert h == b * (h / b) + h % b;
    var d := h / b - q;
    assert b * d == r - h % b by {
      assert b * (h / b) - b * q == b * d;
      assert q * b == b * q;
    }
    if d >= 1 { TimesAtMost(1, d, b); } else if d <= -1 { TimesAtMost(d, -1, b); }
    assert d * b == b * d;
  }
}
