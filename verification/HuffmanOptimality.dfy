/**
 * Why Huffman's algorithm finds the best code lengths (ITU-T T.81, K.2, section "Huffman's
 * basic algorithm" in jchuff.c): giving the two least frequent symbols a common prefix costs
 * nothing. Every assignment of lengths that meets Kraft's inequality can be turned into one for
 * the merged frequencies that is cheaper by their sum.
 */
module HuffmanOptimality {
  import opened Bits
  import opened CodeLengths

  // ---- integral weights

  /** Kraft's sum over the live symbols, in units of the longest code. */
  function Scaled(used: seq<bool>, ls: seq<nat>, m: nat, n: nat): nat
    requires n <= |used| == |ls| && Longest(used, ls, m)
  {
    if n == 0 then 0 else Scaled(used, ls, m, n - 1) + (if used[n - 1] then Pow2(m - ls[n - 1]) else 0)
  }

  predicate Longest(used: seq<bool>, ls: seq<nat>, m: nat) {
    |used| == |ls| && forall x :: 0 <= x < |ls| && used[x] ==> ls[x] <= m
  }

  /** `k` shares of size `w`. */
  function Shares(k: nat, w: real): real {
    if k == 0 then 0.0 else Shares(k - 1, w) + w
  }

  lemma {:induction false} SharesAdd(j: nat, k: nat, w: real)
    ensures Shares(j + k, w) == Shares(j, w) + Shares(k, w)
  {
    if k > 0 { SharesAdd(j, k - 1, w); }
  }

  lemma {:induction false} SharesOrder(j: nat, k: nat, w: real)
    requires w > 0.0
    ensures Shares(j, w) <= Shares(k, w) <==> j <= k
  {
    if k > 0 && j > 0 {
      SharesOrder(j - 1, k - 1, w);
    } else if k > 0 {
      SharesOrder(0, k - 1, w);
    } else if j > 0 {
      SharesOrder(j - 1, 0, w);
    }
  }

  /** A code of `k` bits takes 2^(m-k) shares of the size of an m-bit code. */
  lemma {:induction false} WeightShares(k: nat, m: nat)
    requires k <= m
    ensures Weight(k) == Shares(Pow2(m - k), Weight(m))
    decreases m - k
  {
    if k == m {
      assert Shares(1, Weight(m)) == Shares(0, Weight(m)) + Weight(m);
    } else {
      WeightShares(k + 1, m);
      SharesAdd(Pow2(m - (k + 1)), Pow2(m - (k + 1)), Weight(m));
      assert Pow2(m - k) == 2 * Pow2(m - (k + 1));
    }
  }

  lemma {:induction false} ScaledIs(used: seq<bool>, ls: seq<nat>, m: nat, n: nat)
    requires n <= |used| == |ls| && Longest(used, ls, m)
    ensures TotalWeight(used, ls, n) == Shares(Scaled(used, ls, m, n), Weight(m))
  {
    if n > 0 {
      ScaledIs(used, ls, m, n - 1);
      if used[n - 1] {
        WeightShares(ls[n - 1], m);
        SharesAdd(Scaled(used, ls, m, n - 1), Pow2(m - ls[n - 1]), Weight(m));
      }
    }
  }

  /** A single longest code makes the scaled sum odd. */
  lemma {:induction false} OddOne(used: seq<bool>, ls: seq<nat>, m: nat, p: nat, n: nat)
    requires n <= |used| == |ls| && Longest(used, ls, m) && p < |ls| && used[p] && ls[p] == m
    requires forall x :: 0 <= x < |ls| && used[x] && ls[x] == m ==> x == p
    ensures Scaled(used, ls, m, n) % 2 == if p < n then 1 else 0
  {
    if n > 0 {
      OddOne(used, ls, m, p, n - 1);
      if n - 1 != p && used[n - 1] { assert Pow2(m - ls[n - 1]) == 2 * Pow2(m - ls[n - 1] - 1); }
    }
  }

  /** A code of the greatest length that has no partner can be shortened. */
  lemma Shorten(used: seq<bool>, ls: seq<nat>, m: nat, p: nat)
    requires |used| == |ls| && TotalWeight(used, ls, |ls|) <= 1.0 && Longest(used, ls, m) && m >= 1
    requires p < |ls| && used[p] && ls[p] == m && forall x :: 0 <= x < |ls| && used[x] && ls[x] == m ==> x == p
    ensures TotalWeight(used, ls[p := m - 1], |ls|) <= 1.0
  {
    var n, s := |ls|, Scaled(used, ls, m, |ls|);
    ScaledIs(used, ls, m, n);
    OddOne(used, ls, m, p, n);
    WeightShares(0, m);
    assert Pow2(m) == 2 * Pow2(m - 1);
    SharesOrder(s, Pow2(m), Weight(m));
    SharesOrder(s + 1, Pow2(m), Weight(m));
    WeightUpdate(used, ls, n, p, m - 1);
  }

  lemma {:induction false} TotalOfTwo(used: seq<bool>, ls: seq<nat>, n: nat, x: nat, y: nat)
    requires x < y < n <= |used| == |ls| && used[x] && used[y]
    ensures TotalWeight(used, ls, n) >= Weight(ls[x]) + Weight(ls[y])
  {
    if y < n - 1 { TotalOfTwo(used, ls, n - 1, x, y); } else { TotalOfOne(used, ls, n - 1, x); }
  }

  lemma {:induction false} TotalOfOne(used: seq<bool>, ls: seq<nat>, n: nat, x: nat)
    requires x < n <= |used| == |ls| && used[x]
    ensures TotalWeight(used, ls, n) >= Weight(ls[x])
  {
    if x < n - 1 { TotalOfOne(used, ls, n - 1, x); } else { NotNegative(used, ls, n - 1); }
  }

  lemma {:induction false} NotNegative(used: seq<bool>, ls: seq<nat>, n: nat)
    requires n <= |used| == |ls|
    ensures TotalWeight(used, ls, n) >= 0.0
  {
    if n > 0 { NotNegative(used, ls, n - 1); }
  }

  // ---- exchanging lengths

  /** Lengths for the symbols with nonzero frequency that meet Kraft's inequality. */
  predicate Feasible(freq: seq<nat>, ls: seq<nat>) {
    |ls| == |freq| && TotalWeight(Mask(freq), ls, |freq|) <= 1.0
  }

  /** Some longest code. */
  function MaxLength(used: seq<bool>, ls: seq<nat>, n: nat, p: nat): (q: nat)
    requires n <= |used| == |ls| && p < |ls| && used[p]
    ensures q < |ls| && used[q] && ls[q] >= ls[p] && forall x :: 0 <= x < n && used[x] ==> ls[x] <= ls[q]
  {
    if n == 0 then p
    else
      var q := MaxLength(used, ls, n - 1, p);
      if used[n - 1] && ls[n - 1] > ls[q] then n - 1 else q
  }

  /** Two symbols that share the greatest length. */
  predicate Partners(freq: seq<nat>, ls: seq<nat>, m: nat, p: nat, q: nat) {
    |ls| == |freq| && p < |ls| && q < |ls| && p != q && freq[p] > 0 && freq[q] > 0 && ls[p] == ls[q] == m >= 1 &&
    Longest(Mask(freq), ls, m)
  }

  /** Without extra cost, the greatest length is shared by two symbols. */
  lemma {:induction false} FindPartners(freq: seq<nat>, ls: seq<nat>, a: nat, b: nat)
      returns (ls': seq<nat>, m: nat, p: nat, q: nat)
    requires Feasible(freq, ls) && a < b < |freq| && freq[a] > 0 && freq[b] > 0
    ensures Feasible(freq, ls') && Cost(freq, ls', |freq|) <= Cost(freq, ls, |freq|) && Partners(freq, ls', m, p, q)
    decreases Cost(freq, ls, |freq|)
  {
    var used, n := Mask(freq), |freq|;
    p := MaxLength(used, ls, n, a);
    m := ls[p];
    TotalOfTwo(used, ls, n, a, b);
    assert m >= 1;
    if q' :| 0 <= q' < n && used[q'] && ls[q'] == m && q' != p {
      ls', q := ls, q';
    } else {
      Shorten(used, ls, m, p);
      CostUpdate(freq, ls, n, p, m - 1);
      ls', m, p, q := FindPartners(freq, ls[p := m - 1], a, b);
    }
  }

  /** Swapping the lengths of two live symbols. */
  lemma Swap(freq: seq<nat>, ls: seq<nat>, x: nat, y: nat)
    requires Feasible(freq, ls) && x < |ls| && y < |ls| && 0 < freq[x] <= freq[y] && ls[x] <= ls[y]
    ensures Feasible(freq, ls[x := ls[y]][y := ls[x]])
    ensures Cost(freq, ls[x := ls[y]][y := ls[x]], |freq|) <= Cost(freq, ls, |freq|)
  {
    var used, n := Mask(freq), |freq|;
    WeightUpdate(used, ls, n, x, ls[y]);
    WeightUpdate(used, ls[x := ls[y]], n, y, ls[x]);
    CostUpdate(freq, ls, n, x, ls[y]);
    CostUpdate(freq, ls[x := ls[y]], n, y, ls[x]);
    SwapGain(freq[x], freq[y], ls[x], ls[y]);
    if x == y { assert ls[x := ls[y]][y := ls[x]] == ls; }
  }

  lemma SwapGain(f: nat, g: nat, k: nat, l: nat)
    requires f <= g && k <= l
    ensures f * (l - k) + g * (k - l) <= 0
  {
    assert (g - f) * (l - k) >= 0;
    assert f * (l - k) + g * (k - l) == -((g - f) * (l - k));
  }

  /** `a` and `b` are the two least frequent live symbols. */
  predicate TwoLeast(freq: seq<nat>, a: nat, b: nat) {
    a < |freq| && b < |freq| && a != b && 0 < freq[a] <= freq[b] &&
    forall x :: 0 <= x < |freq| && x != a && freq[x] > 0 ==> freq[b] <= freq[x]
  }

  /** Without extra cost, the two least frequent symbols share the greatest length. */
  lemma LeastDeepest(freq: seq<nat>, ls: seq<nat>, a: nat, b: nat) returns (ls': seq<nat>, m: nat)
    requires Feasible(freq, ls) && TwoLeast(freq, a, b)
    ensures Feasible(freq, ls') && Cost(freq, ls', |freq|) <= Cost(freq, ls, |freq|) && ls'[a] == ls'[b] == m >= 1
  {
    var ls1, p, q;
    ls1, m, p, q := FindPartners(freq, ls, if a < b then a else b, if a < b then b else a);
    if p == b || q == a { p, q := q, p; }
    Swap(freq, ls1, a, p);
    var ls2 := ls1[a := ls1[p]][p := ls1[a]];
    Swap(freq, ls2, b, q);
    ls' := ls2[b := ls2[q]][q := ls2[b]];
  }

  /** The frequencies after a merge. */
  function MergedFreq(freq: seq<nat>, a: nat, b: nat): seq<nat>
    requires a < |freq| && b < |freq|
  {
    freq[a := freq[a] + freq[b]][b := 0]
  }

  /** The exchange argument: what any assignment costs, some assignment for the merged
      frequencies costs less by the frequency of the merged tree. */
  lemma MergeGains(freq: seq<nat>, ls: seq<nat>, a: nat, b: nat) returns (ls': seq<nat>)
    requires Feasible(freq, ls) && TwoLeast(freq, a, b)
    ensures Feasible(MergedFreq(freq, a, b), ls')
    ensures Cost(MergedFreq(freq, a, b), ls', |freq|) + freq[a] + freq[b] <= Cost(freq, ls, |freq|)
  {
    var l1, m := LeastDeepest(freq, ls, a, b);
    var n := |freq|;
    ls' := l1[a := m - 1];
    CostFreqUpdate(freq, ls', n, a, freq[a] + freq[b]);
    CostFreqUpdate(freq[a := freq[a] + freq[b]], ls', n, b, 0);
    CostUpdate(freq, l1, n, a, m - 1);
    MergedCost(freq[a], freq[b], m);
    WeightUpdate(Mask(freq), l1, n, a, m - 1);
    MaskUpdate(Mask(freq), ls', n, b);
    assert Mask(MergedFreq(freq, a, b)) == Mask(freq)[b := false];
  }

  lemma MergedCost(f: nat, g: nat, m: nat)
    requires m >= 1
    ensures f * (m - 1 - m) + (f + g - f) * (m - 1) + (0 - g) * m == -(f + g)
  {
  }
}
