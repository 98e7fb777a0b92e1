/** Code lengths as shares of the code space, and what they cost. */
module CodeLengths {
  const SYMBOLS := 257
  const PSEUDO := 256
  const LARGEST: nat := 1_000_000_000

  /** The share of the code space a code of `n` bits takes. */
  function Weight(n: nat): (w: real)
    ensures w > 0.0
  {
    if n == 0 then 1.0 else Weight(n - 1) / 2.0
  }

  /** The weight of the first `n` symbols of a branch. */
  function BranchWeight(branch: seq<nat>, cs: seq<nat>, n: nat): real
    requires n <= |branch| && forall k :: 0 <= k < |branch| ==> branch[k] < |cs|
  {
    if n == 0 then 0.0 else BranchWeight(branch, cs, n - 1) + Weight(cs[branch[n - 1]])
  }

  /** The weight of all symbols below `n` that are in use. */
  function TotalWeight(used: seq<bool>, cs: seq<nat>, n: nat): real
    requires n <= |used| == |cs|
  {
    if n == 0 then 0.0 else TotalWeight(used, cs, n - 1) + (if used[n - 1] then Weight(cs[n - 1]) else 0.0)
  }

  /** How many of the first `n` frequencies are not zero. */
  function Live(freq: seq<nat>, n: nat): nat
    requires n <= |freq|
  {
    if n == 0 then 0 else Live(freq, n - 1) + (if freq[n - 1] > 0 then 1 else 0)
  }

  function Sum(freq: seq<nat>, n: nat): nat
    requires n <= |freq|
  {
    if n == 0 then 0 else Sum(freq, n - 1) + freq[n - 1]
  }

  lemma {:induction false} WeightUpdate(used: seq<bool>, cs: seq<nat>, n: nat, x: nat, v: nat)
    requires n <= |used| == |cs| && x < |cs| && used[x]
    ensures TotalWeight(used, cs[x := v], n) == TotalWeight(used, cs, n) + (if x < n then Weight(v) - Weight(cs[x])
              else 0.0)
  {
    if n > 0 { WeightUpdate(used, cs, n - 1, x, v); }
  }

  lemma {:induction false} LiveUpdate(freq: seq<nat>, n: nat, x: nat, v: nat)
    requires n <= |freq| && x < |freq|
    ensures Live(freq[x := v], n) == Live(freq, n) + (if x < n then (if v > 0 then 1 else 0) - (if freq[x] > 0 then 1
              else 0) else 0)
  {
    if n > 0 { LiveUpdate(freq, n - 1, x, v); }
  }

  lemma {:induction false} SumUpdate(freq: seq<nat>, n: nat, x: nat, v: nat)
    requires n <= |freq| && x < |freq|
    ensures Sum(freq[x := v], n) == Sum(freq, n) + (if x < n then v - freq[x] else 0)
  {
    if n > 0 { SumUpdate(freq, n - 1, x, v); }
  }

  lemma {:induction false} SumAtLeast(freq: seq<nat>, n: nat, x: nat)
    requires x < n <= |freq|
    ensures freq[x] <= Sum(freq, n)
  {
    if x < n - 1 { SumAtLeast(freq, n - 1, x); }
  }

  lemma {:induction false} SumOfTwo(freq: seq<nat>, n: nat, x: nat, y: nat)
    requires x < y < n <= |freq|
    ensures freq[x] + freq[y] <= Sum(freq, n)
  {
    if y < n - 1 { SumOfTwo(freq, n - 1, x, y); } else { SumAtLeast(freq, n - 1, x); }
  }

  lemma {:induction false} LiveOne(freq: seq<nat>, n: nat, x: nat)
    requires x < |freq| && n <= |freq| && forall i :: 0 <= i < n && i != x ==> freq[i] == 0
    ensures Live(freq, n) == if x < n && freq[x] > 0 then 1 else 0
  {
    if n > 0 { LiveOne(freq, n - 1, x); }
  }

  /** The total length of a message in which symbol `x` occurs `freq[x]` times. */
  function Cost(freq: seq<nat>, ls: seq<nat>, n: nat): nat
    requires n <= |freq| == |ls|
  {
    if n == 0 then 0 else Cost(freq, ls, n - 1) + freq[n - 1] * ls[n - 1]
  }

  function Mask(freq: seq<nat>): (used: seq<bool>)
    ensures |used| == |freq| && forall x :: 0 <= x < |freq| ==> used[x] == (freq[x] > 0)
  {
    seq(|freq|, x requires 0 <= x < |freq| => freq[x] > 0)
  }

  lemma {:induction false} CostUpdate(freq: seq<nat>, ls: seq<nat>, n: nat, x: nat, v: nat)
    requires n <= |freq| == |ls| && x < |ls|
    ensures Cost(freq, ls[x := v], n) == Cost(freq, ls, n) + (if x < n then freq[x] * (v - ls[x]) else 0)
  {
    if n > 0 {
      CostUpdate(freq, ls, n - 1, x, v);
      if x == n - 1 { assert freq[x] * v == freq[x] * ls[x] + freq[x] * (v - ls[x]); }
    }
  }

  lemma {:induction false} CostFreqUpdate(freq: seq<nat>, ls: seq<nat>, n: nat, x: nat, v: nat)
    requires n <= |freq| == |ls| && x < |ls|
    ensures Cost(freq[x := v], ls, n) == Cost(freq, ls, n) + (if x < n then (v - freq[x]) * ls[x] else 0)
  {
    if n > 0 {
      CostFreqUpdate(freq, ls, n - 1, x, v);
      if x == n - 1 { assert v * ls[x] == freq[x] * ls[x] + (v - freq[x]) * ls[x]; }
    }
  }

  lemma {:induction false} MaskUpdate(used: seq<bool>, ls: seq<nat>, n: nat, x: nat)
    requires n <= |used| == |ls| && x < |ls| && used[x]
    ensures TotalWeight(used[x := false], ls, n) == TotalWeight(used, ls, n) - (if x < n then Weight(ls[x]) else 0.0)
  {
    if n > 0 { MaskUpdate(used, ls, n - 1, x); }
  }
}
