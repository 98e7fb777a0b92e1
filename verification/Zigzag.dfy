/** The zigzag order of an 8x8 block (jutils.c), and what makes it a reordering. */
module Zigzag {

  type Block = b: seq<int> | |b| == 64 witness seq(64, _ => 0)

  /** jpeg_natural_order: the place of the k-th zigzag coefficient; the last sixteen entries
      catch runs that overshoot the block. */
  function NaturalOrder(k: nat): (n: nat)
    requires k < 80
    ensures n < 64
  {
    match k
      case 0 => 0 case 1 => 1 case 2 => 8 case 3 => 16 case 4 => 9 case 5 => 2 case 6 => 3 case 7 => 10
      case 8 => 17 case 9 => 24 case 10 => 32 case 11 => 25 case 12 => 18 case 13 => 11 case 14 => 4 case 15 => 5
      case 16 => 12 case 17 => 19 case 18 => 26 case 19 => 33 case 20 => 40 case 21 => 48 case 22 => 41 case 23 => 34
      case 24 => 27 case 25 => 20 case 26 => 13 case 27 => 6 case 28 => 7 case 29 => 14 case 30 => 21 case 31 => 28
      case 32 => 35 case 33 => 42 case 34 => 49 case 35 => 56 case 36 => 57 case 37 => 50 case 38 => 43 case 39 => 36
      case 40 => 29 case 41 => 22 case 42 => 15 case 43 => 23 case 44 => 30 case 45 => 37 case 46 => 44 case 47 => 51
      case 48 => 58 case 49 => 59 case 50 => 52 case 51 => 45 case 52 => 38 case 53 => 31 case 54 => 39 case 55 => 46
      case 56 => 53 case 57 => 60 case 58 => 61 case 59 => 54 case 60 => 47 case 61 => 55 case 62 => 62 case 63 => 63
      case _ => 63
  }

  /** The inverse table, from place to zigzag rank. */
  function ZigzagOrder(n: nat): (k: nat)
    requires n < 64
    ensures k < 64
  {
    match n
      case 0 => 0 case 1 => 1 case 2 => 5 case 3 => 6 case 4 => 14 case 5 => 15 case 6 => 27 case 7 => 28
      case 8 => 2 case 9 => 4 case 10 => 7 case 11 => 13 case 12 => 16 case 13 => 26 case 14 => 29 case 15 => 42
      case 16 => 3 case 17 => 8 case 18 => 12 case 19 => 17 case 20 => 25 case 21 => 30 case 22 => 41 case 23 => 43
      case 24 => 9 case 25 => 11 case 26 => 18 case 27 => 24 case 28 => 31 case 29 => 40 case 30 => 44 case 31 => 53
      case 32 => 10 case 33 => 19 case 34 => 23 case 35 => 32 case 36 => 39 case 37 => 45 case 38 => 52 case 39 => 54
      case 40 => 20 case 41 => 22 case 42 => 33 case 43 => 38 case 44 => 46 case 45 => 51 case 46 => 55 case 47 => 60
      case 48 => 21 case 49 => 34 case 50 => 37 case 51 => 47 case 52 => 50 case 53 => 56 case 54 => 59 case 55 => 61
      case 56 => 35 case 57 => 36 case 58 => 48 case 59 => 49 case 60 => 57 case 61 => 58 case 62 => 62 case 63 => 63
      case _ => 63
  }

  /** The first 64 entries reorder the block: no two ranks share a place ... */
  lemma RankOfPlace(k: nat)
    requires k < 64
    ensures ZigzagOrder(NaturalOrder(k)) == k
  {
    RankOfPlaceIn(k / 8 * 8, k);
  }

  lemma RankOfPlaceIn(lo: nat, k: nat)
    requires lo in {0, 8, 16, 24, 32, 40, 48, 56} && lo <= k < lo + 8
    ensures ZigzagOrder(NaturalOrder(k)) == k
  {
    if k < lo + 4 {
    } else {
    }
  }

  /** ... and every place has a rank. */
  lemma PlaceOfRank(n: nat)
    requires n < 64
    ensures NaturalOrder(ZigzagOrder(n)) == n
  {
    PlaceOfRankIn(n / 8 * 8, n);
  }

  lemma PlaceOfRankIn(lo: nat, n: nat)
    requires lo in {0, 8, 16, 24, 32, 40, 48, 56} && lo <= n < lo + 8
    ensures NaturalOrder(ZigzagOrder(n)) == n
  {
    if n < lo + 4 {
    } else {
    }
  }

  /** The next place of the walk (T.81, figure A.6), from row `n` / 8 and column `n` % 8: up and to the right
      along one antidiagonal, down and to the left along the next, and along the edge in between. */
  function NextPlace(n: nat): nat
    requires n < 63
  {
    var (row, col) := (n / 8, n % 8);
    if (row + col) % 2 == 0 then
      if col == 7 then n + 8 else if row == 0 then n + 1 else n - 7
    else
      if row == 7 then n + 1 else if col == 0 then n + 8 else n + 7
  }

  /** The table is the zigzag. */
  lemma ZigzagWalk(k: nat)
    requires k < 63
    ensures NaturalOrder(0) == 0 && NaturalOrder(k) < 63 && NaturalOrder(k + 1) == NextPlace(NaturalOrder(k))
  {
    if k < 32 { WalkTop(k / 8 * 8, k); } else { WalkBottom(k / 8 * 8, k); }
  }

  lemma WalkTop(lo: nat, k: nat)
    requires lo in {0, 8, 16, 24} && lo <= k < lo + 8 && k < 63
    ensures NaturalOrder(k) < 63 && NaturalOrder(k + 1) == NextPlace(NaturalOrder(k))
  {
    if k < lo + 4 {
    } else {
    }
  }

  lemma WalkBottom(lo: nat, k: nat)
    requires lo in {32, 40, 48, 56} && lo <= k < lo + 8 && k < 63
    ensures NaturalOrder(k) < 63 && NaturalOrder(k + 1) == NextPlace(NaturalOrder(k))
  {
    if k < lo + 4 {
    } else {
    }
  }

  // ---- orders as tables

  /** A table of places: 64 ranks and sixteen spare entries. */
  type Order = o: seq<nat> | |o| == 80 && forall k :: 0 <= k < 80 ==> o[k] < 64
    witness seq(80, _ => 0)

  const JPEG_NATURAL_ORDER: Order := seq(80, k requires 0 <= k < 80 => NaturalOrder(k))

  predicate Reached(o: Order, n: nat) {
    exists k :: 0 <= k < 64 && o[k] == n
  }

  /** The first 64 entries of the table reorder a block, and DC stays first. */
  predicate Reorders(o: Order) {
    o[0] == 0 &&
    (forall j, k :: 0 <= j < k < 64 ==> o[j] != o[k]) &&
    (forall n: nat :: n < 64 ==> Reached(o, n))
  }

  /** The spare entries repeat the last place. */
  predicate SpareLast(o: Order) {
    forall k :: 64 <= k < 80 ==> o[k] == o[63]
  }

  lemma JpegOrderReorders()
    ensures Reorders(JPEG_NATURAL_ORDER) && SpareLast(JPEG_NATURAL_ORDER)
  {
    var o := JPEG_NATURAL_ORDER;
    forall j, k | 0 <= j < k < 64
      ensures o[j] != o[k]
    {
      RankOfPlace(j);
      RankOfPlace(k);
    }
    forall n: nat | n < 64
      ensures Reached(o, n)
    {
      PlaceOfRank(n);
      assert o[ZigzagOrder(n)] == n;
    }
  }

  /** The coefficients of a block by rank. */
  function Ranked(o: Order, b: Block): (z: seq<int>)
    ensures |z| == 64
  {
    seq(64, k requires 0 <= k < 64 => b[o[k]])
  }

  /** Blocks that agree rank by rank are equal. */
  lemma SameBlock(o: Order, a: Block, b: Block)
    requires Reorders(o) && Ranked(o, a) == Ranked(o, b)
    ensures a == b
  {
    forall n: nat | n < 64
      ensures a[n] == b[n]
    {
      assert Reached(o, n);
      var k :| 0 <= k < 64 && o[k] == n;
      assert Ranked(o, a)[k] == a[n] && Ranked(o, b)[k] == b[n];
    }
  }
}
