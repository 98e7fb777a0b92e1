/**
 * Huffman tables as a DHT marker carries them, and the canonical code they stand for
 * (ITU-T T.81, annex C): within one length codes count up, and the first code of a length
 * is twice the code that follows the last one of the length before.
 *
 * A codeword is named by its length `l` and its rank `j` among the codes of that length.
 */
module HuffmanCodes {
  import opened Bits

  datatype HuffTable = HuffTable(bits: seq<nat>, huffval: seq<Byte>) {
    /** Every table the two table builders can be handed without running off an array. */
    predicate WellFormed() {
      |bits| == 17 && |huffval| == 256 && Count(bits, 16) <= 256
    }

    /** A table whose codes all fit their lengths: Kraft's inequality. */
    predicate Valid() {
      WellFormed() && Kraft(bits, 16) <= Pow2(16)
    }
  }

  /** How many codes are at most `l` bits long. */
  function Count(bits: seq<nat>, l: nat): nat
    requires l < |bits|
  {
    if l == 0 then 0 else Count(bits, l - 1) + bits[l]
  }

  /** Kraft's sum over the lengths up to `l`, scaled by 2^l. */
  function Kraft(bits: seq<nat>, l: nat): nat
    requires l < |bits|
  {
    if l == 0 then 0 else 2 * Kraft(bits, l - 1) + bits[l]
  }

  /** The first code of length `l`. */
  function First(bits: seq<nat>, l: nat): nat
    requires 1 <= l < |bits|
  {
    2 * Kraft(bits, l - 1)
  }

  predicate IsCode(bits: seq<nat>, l: nat, j: nat) {
    1 <= l <= 16 && l < |bits| && j < bits[l]
  }

  function CodeBits(bits: seq<nat>, l: nat, j: nat): Bits
    requires IsCode(bits, l, j)
  {
    ToBits(First(bits, l) + j, l)
  }

  /** A codeword's place in code-length order. */
  function Index(h: HuffTable, l: nat, j: nat): (p: nat)
    requires h.WellFormed() && IsCode(h.bits, l, j)
    ensures p < Count(h.bits, 16) <= 256
  {
    CountMonotone(h.bits, l, 16);
    Count(h.bits, l - 1) + j
  }

  /** The symbol of a codeword. */
  function SymbolOf(h: HuffTable, l: nat, j: nat): Byte
    requires h.WellFormed() && IsCode(h.bits, l, j)
  {
    h.huffval[Index(h, l, j)]
  }

  /** The stream shows codeword (l, j) at `pos`. */
  predicate Shows(bits: seq<nat>, s: Bits, pos: nat, l: nat, j: nat) {
    IsCode(bits, l, j) && Take(s, pos, l) == CodeBits(bits, l, j)
  }

  /** What one Huffman read must deliver: the symbol of the codeword the stream shows and
      its length; on a stream that shows none, symbol 0 after 17 bits. */
  ghost function ReadSymbol(h: HuffTable, s: Bits, pos: nat): (r: (Byte, nat))
    requires h.WellFormed()
  {
    if exists l, j :: Shows(h.bits, s, pos, l, j) then
      var l, j :| Shows(h.bits, s, pos, l, j);
      (SymbolOf(h, l, j), l)
    else (0, 17)
  }

  // ---- counting

  lemma {:induction false} CountMonotone(bits: seq<nat>, l: nat, m: nat)
    requires l <= m < |bits|
    ensures Count(bits, l) <= Count(bits, m)
    decreases m - l
  {
    if l < m { CountMonotone(bits, l, m - 1); }
  }

  lemma Doubled(a: nat, n: nat)
    ensures a * Pow2(n + 1) == 2 * (a * Pow2(n))
  {
  }

  lemma {:induction false} KraftGrows(bits: seq<nat>, l: nat, m: nat)
    requires l <= m < |bits|
    ensures Kraft(bits, l) * Pow2(m - l) <= Kraft(bits, m)
    decreases m - l
  {
    if l < m {
      KraftGrows(bits, l, m - 1);
      Doubled(Kraft(bits, l), m - 1 - l);
    }
  }

  /** Kraft's inequality at 16 bits gives it at every shorter length. */
  lemma KraftBound(bits: seq<nat>, l: nat)
    requires |bits| == 17 && l <= 16 && Kraft(bits, 16) <= Pow2(16)
    ensures Kraft(bits, l) <= Pow2(l)
    ensures Kraft(bits, 16) < Pow2(16) ==> Kraft(bits, l) < Pow2(l)
  {
    KraftGrows(bits, l, 16);
    Pow2Add(l, 16 - l);
    MulCancel(Kraft(bits, l), Pow2(l), Pow2(16 - l));
  }

  lemma MulCancel(k: nat, p: nat, d: nat)
    requires d > 0
    ensures k * d <= p * d ==> k <= p
    ensures k * d < p * d ==> k < p
  {
    if k > p { MulStrict(p, k, d); }
  }

  lemma MulStrict(p: int, k: int, d: int)
    requires d > 0 && p < k
    ensures p * d < k * d
  {
  }

  // ---- the code is prefix-free

  /** A longer code, cut to `l` bits, lies beyond every code of length `l`. */
  lemma LongerIsBeyond(bits: seq<nat>, l: nat, m: nat, i: nat)
    requires 1 <= l < m && IsCode(bits, m, i)
    ensures (First(bits, m) + i) / Pow2(m - l) >= Kraft(bits, l)
  {
    KraftGrows(bits, l, m - 1);
    var d, v := Pow2(m - l), First(bits, m) + i;
    assert v >= Kraft(bits, l) * d by {
      assert Kraft(bits, l) * d == 2 * (Kraft(bits, l) * Pow2(m - 1 - l));
    }
    DivAtLeast(v, d, Kraft(bits, l));
  }

  lemma DivAtLeast(v: nat, d: nat, q: nat)
    requires d > 0
    ensures v >= q * d <==> v / d >= q
  {
    assert v == d * (v / d) + v % d;
    if v / d >= q {
      assert d * (v / d) >= d * q;
    } else {
      assert d * (v / d + 1) <= d * q;
      assert d * (v / d + 1) == d * (v / d) + d;
    }
  }

  lemma CodeFits(bits: seq<nat>, l: nat, j: nat)
    requires |bits| == 17 && IsCode(bits, l, j) && Kraft(bits, 16) <= Pow2(16)
    ensures First(bits, l) + j < Pow2(l)
  {
    KraftBound(bits, l);
  }

  /** No codeword is a prefix of another: a stream shows at most one. */
  lemma PrefixFree(bits: seq<nat>, s: Bits, pos: nat, l: nat, j: nat, m: nat, i: nat)
    requires |bits| == 17 && Kraft(bits, 16) <= Pow2(16)
    requires Shows(bits, s, pos, l, j) && Shows(bits, s, pos, m, i)
    ensures l == m && j == i
  {
    hide ToBits, Kraft, Pow2;
    CodeFits(bits, l, j);
    CodeFits(bits, m, i);
    if l == m {
      ToBitsInjective(First(bits, l) + j, First(bits, l) + i, l);
    } else if l < m {
      ShorterShows(bits, s, pos, l, j, m, i);
    } else {
      ShorterShows(bits, s, pos, m, i, l, j);
    }
  }

  lemma BelowKraft(bits: seq<nat>, l: nat, j: nat)
    requires IsCode(bits, l, j)
    ensures First(bits, l) + j < Kraft(bits, l)
  {
  }

  lemma ShorterShows(bits: seq<nat>, s: Bits, pos: nat, l: nat, j: nat, m: nat, i: nat)
    requires |bits| == 17 && Kraft(bits, 16) <= Pow2(16)
    requires Shows(bits, s, pos, l, j) && Shows(bits, s, pos, m, i)
    ensures l >= m
  {
    hide ToBits, Kraft, Pow2;
    if l < m {
      var c := First(bits, m) + i;
      CutFits(bits, l, m, i);
      LongerIsBeyond(bits, l, m, i);
      assert Take(s, pos, l) == ToBits(c / Pow2(m - l), l) by {
        TakeSplit(s, pos, l, m - l);
        ToBitsTake(c, m, l);
      }
      CodeFits(bits, l, j);
      BelowKraft(bits, l, j);
      ToBitsInjective(First(bits, l) + j, c / Pow2(m - l), l);
    }
  }

  lemma CutFits(bits: seq<nat>, l: nat, m: nat, i: nat)
    requires |bits| == 17 && Kraft(bits, 16) <= Pow2(16) && 1 <= l < m && IsCode(bits, m, i)
    ensures (First(bits, m) + i) / Pow2(m - l) < Pow2(l)
  {
    CodeFits(bits, m, i);
    Pow2Add(l, m - l);
    DivAtLeast(First(bits, m) + i, Pow2(m - l), Pow2(l));
  }

  /** So the codeword a stream shows decides the read. */
  lemma ReadSymbolIs(h: HuffTable, s: Bits, pos: nat, l: nat, j: nat)
    requires h.Valid() && Shows(h.bits, s, pos, l, j)
    ensures ReadSymbol(h, s, pos) == (SymbolOf(h, l, j), l)
  {
    var l': nat, j': nat :| Shows(h.bits, s, pos, l', j') && ReadSymbol(h, s, pos) == (SymbolOf(h, l', j'), l');
    PrefixFree(h.bits, s, pos, l, j, l', j');
  }

  /** With Kraft's sum strictly below one, no codeword is all ones (T.81, annex C.2 reserves them). */
  lemma NoAllOnes(bits: seq<nat>, l: nat, j: nat)
    requires |bits| == 17 && IsCode(bits, l, j) && Kraft(bits, 16) < Pow2(16)
    ensures CodeBits(bits, l, j) != seq(l, _ => true)
  {
    KraftBound(bits, l);
    AllOnesValue(l);
    ValueOfBits(First(bits, l) + j, l);
  }

  lemma ValueOfBits(v: nat, n: nat)
    requires v < Pow2(n)
    ensures Value(ToBits(v, n)) == v
  {
    ValueToBits(v, n);
    DivUnique(v, Pow2(n), 0, v);
  }

  lemma {:induction false} AllOnesValue(l: nat)
    ensures Value(seq(l, _ => true)) == Pow2(l) - 1
  {
    if l > 0 {
      var ones: Bits := seq(l, _ => true);
      var fewer: Bits := seq(l - 1, _ => true);
      assert ones[..l - 1] == fewer;
      AllOnesValue(l - 1);
    }
  }
}
