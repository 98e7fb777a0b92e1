/**
 * jpeg_gen_optimal_table (jchuff.c; ITU-T T.81, K.2): from symbol counts to a Huffman table.
 * After the merging come the length counts, the length limit, the removal of the
 * pseudo-symbol and the list of symbols.
 */
module OptimalTable {
  import opened Bits
  import opened HuffmanCodes
  import opened CodeLengths
  import opened HuffmanMerge

  const MAX_CLEN := 32

  // ---- counting code lengths

  /** How many of the first `n` symbols have a code of `l` bits. */
  function OfLength(cs: seq<nat>, n: nat, l: nat): (c: nat)
    requires n <= |cs|
    ensures c <= n
  {
    if n == 0 then 0 else OfLength(cs, n - 1, l) + (if cs[n - 1] == l then 1 else 0)
  }

  /** How many of the first `n` symbols have a code of 1 to `l` bits. */
  function UpToLength(cs: seq<nat>, n: nat, l: nat): nat
    requires n <= |cs|
  {
    if l == 0 then 0 else UpToLength(cs, n, l - 1) + OfLength(cs, n, l)
  }

  /** How many of the first `n` symbols are in use. */
  function InUse(used: seq<bool>, n: nat): (c: nat)
    requires n <= |used|
    ensures c <= n
  {
    if n == 0 then 0 else InUse(used, n - 1) + (if used[n - 1] then 1 else 0)
  }

  lemma {:induction false} OneMoreUpTo(cs: seq<nat>, n: nat, l: nat)
    requires n < |cs|
    ensures UpToLength(cs, n + 1, l) == UpToLength(cs, n, l) + (if 1 <= cs[n] <= l then 1 else 0)
  {
    if l > 0 { OneMoreUpTo(cs, n, l - 1); }
  }

  lemma {:induction false} UpToNone(cs: seq<nat>, l: nat)
    ensures UpToLength(cs, 0, l) == 0
  {
    if l > 0 { UpToNone(cs, l - 1); }
  }

  /** Symbols in use are the symbols that have a code. */
  lemma {:induction false} InUseUpTo(used: seq<bool>, cs: seq<nat>, n: nat)
    requires n <= |used| == |cs| && forall x :: 0 <= x < |cs| ==> cs[x] <= MAX_CLEN && (used[x] <==> cs[x] >= 1)
    ensures UpToLength(cs, n, MAX_CLEN) == InUse(used, n)
  {
    if n == 0 {
      UpToNone(cs, MAX_CLEN);
    } else {
      InUseUpTo(used, cs, n - 1);
      OneMoreUpTo(cs, n - 1, MAX_CLEN);
    }
  }

  lemma {:induction false} UpToGrows(cs: seq<nat>, n: nat, l: nat, m: nat)
    requires n <= |cs| && l <= m
    ensures UpToLength(cs, n, l) <= UpToLength(cs, n, m)
    decreases m - l
  {
    if l < m { UpToGrows(cs, n, l, m - 1); }
  }

  lemma {:induction false} OfLengthGrows(cs: seq<nat>, n: nat, m: nat, l: nat)
    requires n <= m <= |cs|
    ensures OfLength(cs, n, l) <= OfLength(cs, m, l)
    decreases m - n
  {
    if n < m { OfLengthGrows(cs, n, m - 1, l); }
  }

  lemma {:induction false} InUseGrows(used: seq<bool>, n: nat, m: nat)
    requires n <= m <= |used|
    ensures InUse(used, n) <= InUse(used, m)
    decreases m - n
  {
    if n < m { InUseGrows(used, n, m - 1); }
  }

  // ---- the Kraft sum of the counts

  function CodeWeight(bits: seq<nat>, l: nat): real
    requires l < |bits|
  {
    if l == 0 then 0.0 else CodeWeight(bits, l - 1) + bits[l] as real * Weight(l)
  }

  lemma {:induction false} CodeWeightOneMore(bits: seq<nat>, l: nat, x: nat)
    requires l < |bits| && 1 <= x < |bits|
    ensures CodeWeight(bits[x := bits[x] + 1], l) == CodeWeight(bits, l) + (if x <= l then Weight(x) else 0.0)
  {
    if l > 0 {
      CodeWeightOneMore(bits, l - 1, x);
      if x == l { OneMoreTimes(bits[l], Weight(l)); }
    }
  }

  lemma OneMoreTimes(n: nat, w: real)
    ensures (n + 1) as real * w == n as real * w + w
  {
  }

  lemma {:induction false} CountUpdate(bits: seq<nat>, l: nat, x: nat, v: nat)
    requires l < |bits| && 1 <= x < |bits|
    ensures Count(bits[x := v], l) == Count(bits, l) + (if x <= l then v - bits[x] else 0)
  {
    if l > 0 { CountUpdate(bits, l - 1, x, v); }
  }

  lemma {:induction false} KraftUpdate(bits: seq<nat>, l: nat, x: nat, v: nat)
    requires l < |bits| && 1 <= x < |bits|
    ensures Kraft(bits[x := v], l) == Kraft(bits, l) + (if x <= l then (v - bits[x]) * Pow2(l - x) else 0)
  {
    if l > 0 {
      KraftUpdate(bits, l - 1, x, v);
      if x < l { Doubled(v - bits[x], Pow2(l - 1 - x)); }
    }
  }

  lemma Doubled(a: int, p: int)
    ensures a * (2 * p) == 2 * (a * p)
  {
  }

  lemma {:induction false} KraftIsWeight(bits: seq<nat>, l: nat)
    requires l < |bits|
    ensures Kraft(bits, l) as real * Weight(l) == CodeWeight(bits, l)
    ensures Pow2(l) as real * Weight(l) == 1.0
  {
    if l > 0 {
      KraftIsWeight(bits, l - 1);
      Halves(Kraft(bits, l - 1), bits[l], Weight(l - 1));
      Halves(Pow2(l - 1), 0, Weight(l - 1));
    }
  }

  lemma Halves(k: nat, b: nat, w: real)
    ensures (2 * k + b) as real * (w / 2.0) == k as real * w + b as real * (w / 2.0)
  {
  }

  lemma FullKraft(bits: seq<nat>, l: nat)
    requires l < |bits| && CodeWeight(bits, l) == 1.0
    ensures Kraft(bits, l) == Pow2(l)
  {
    KraftIsWeight(bits, l);
    SameProduct(Kraft(bits, l) as real, Pow2(l) as real, Weight(l));
  }

  lemma SameProduct(a: real, b: real, w: real)
    requires w > 0.0 && a * w == b * w
    ensures a == b
  {
    assert (a - b) * w == 0.0;
  }

  /** A length count that stands for a complete code of `n` symbols, none of them coded by no bits. */
  predicate FullCount(bits: seq<nat>, l: nat, n: nat)
    requires l < |bits|
  {
    bits[0] == 0 && Kraft(bits, l) == Pow2(l) && Count(bits, l) == n
  }

  /** Count the symbols of each code length; a code longer than MAX_CLEN is an error. */
  method CountSizes(codesize: array<nat>, ghost used: seq<bool>) returns (ok: bool, bits: array<Byte>)
    requires codesize.Length == SYMBOLS && CompleteCode(used, codesize[..]) && InUse(used, SYMBOLS) <= 255
    ensures fresh(bits) && bits.Length == MAX_CLEN + 1
    ensures ok <==> forall x :: 0 <= x < SYMBOLS ==> codesize[x] <= MAX_CLEN
    ensures ok ==> FullCount(bits[..], MAX_CLEN, InUse(used, SYMBOLS))
    ensures ok ==> forall l: nat :: 1 <= l <= MAX_CLEN ==> bits[l] == OfLength(codesize[..], SYMBOLS, l)
  {
    bits := new Byte[MAX_CLEN + 1](_ => 0);
    ok := true;
    Empty(bits[..], MAX_CLEN);
    for i := 0 to SYMBOLS
      invariant forall x :: 0 <= x < i ==> codesize[x] <= MAX_CLEN
      invariant CountedTo(bits[..], used, codesize[..], i)
    {
      if codesize[i] != 0 {
        if codesize[i] > MAX_CLEN { return false, bits; }
        ghost var b := bits[..];
        CountOne(b, used, codesize[..], i);
        bits[codesize[i]] := bits[codesize[i]] + 1;
        assert bits[..] == b[codesize[i] := b[codesize[i]] + 1];
      }
    }
    FullKraft(bits[..], MAX_CLEN);
  }

  /** The first `i` symbols have been counted. */
  ghost predicate CountedTo(bits: seq<nat>, used: seq<bool>, cs: seq<nat>, i: nat) {
    |bits| == MAX_CLEN + 1 && |used| == |cs| == SYMBOLS && i <= SYMBOLS && bits[0] == 0 &&
    Count(bits, MAX_CLEN) == InUse(used, i) && CodeWeight(bits, MAX_CLEN) == TotalWeight(used, cs, i) &&
    forall l: nat :: 1 <= l <= MAX_CLEN ==> bits[l] == OfLength(cs, i, l)
  }

  lemma CountOne(bits: seq<nat>, used: seq<bool>, cs: seq<nat>, i: nat)
    requires CountedTo(bits, used, cs, i) && i < SYMBOLS && 1 <= cs[i] <= MAX_CLEN && used[i] &&
             InUse(used, SYMBOLS) <= 255
    ensures bits[cs[i]] < 255 && CountedTo(bits[cs[i] := bits[cs[i]] + 1], used, cs, i + 1)
  {
    InUseGrows(used, i + 1, SYMBOLS);
    CountAtLeast(bits, MAX_CLEN, cs[i]);
    CountUpdate(bits, MAX_CLEN, cs[i], bits[cs[i]] + 1);
    CodeWeightOneMore(bits, MAX_CLEN, cs[i]);
  }

  lemma {:induction false} Empty(bits: seq<nat>, l: nat)
    requires l < |bits| && forall k :: 0 <= k < |bits| ==> bits[k] == 0
    ensures Count(bits, l) == 0 && CodeWeight(bits, l) == 0.0 && Kraft(bits, l) == 0
  {
    if l > 0 { Empty(bits, l - 1); }
  }

  lemma {:induction false} CountAtLeast(bits: seq<nat>, l: nat, x: nat)
    requires 1 <= x <= l < |bits|
    ensures bits[x] <= Count(bits, l)
  {
    if x < l { CountAtLeast(bits, l - 1, x); }
  }

  lemma {:induction false} CountOfTwo(bits: seq<nat>, l: nat, x: nat, y: nat)
    requires 1 <= x < y <= l < |bits|
    ensures bits[x] + bits[y] <= Count(bits, l)
  {
    if y < l { CountOfTwo(bits, l - 1, x, y); } else { CountAtLeast(bits, l - 1, x); }
  }

  // ---- limiting code lengths to 16 bits

  /** The longest of the lengths up to `m` that are in use. */
  predicate LongestUsed(bits: seq<nat>, i: nat, m: int) {
    1 <= i <= m < |bits| && bits[i] > 0 && forall l :: i < l <= m ==> bits[l] == 0
  }

  /** How many codes of a length the adjustment of a pair of length `i` takes away or adds, the longest
      shorter length but one in use being `j`. */
  function Change(l: nat, i: nat, j: nat): int {
    (if l == i then -2 else 0) + (if l == i - 1 then 1 else 0) + (if l == j + 1 then 2 else 0) +
    if l == j then -1 else 0
  }

  /** One adjustment (T.81, figure K.3), of the longest codes, if they are longer than sixteen bits. */
  predicate AdjustedAt(b: seq<nat>, b': seq<nat>, i: nat, j: nat) {
    |b| == |b'| == MAX_CLEN + 1 && i > 16 && LongestUsed(b, i, MAX_CLEN) && LongestUsed(b, j, i - 2) &&
    forall l: nat :: l <= MAX_CLEN ==> b'[l] == b[l] + Change(l, i, j)
  }

  ghost predicate Adjustment(b: seq<nat>, b': seq<nat>) {
    exists i: nat, j: nat :: AdjustedAt(b, b', i, j)
  }

  ghost predicate Adjustments(chain: seq<seq<nat>>) {
    |chain| > 0 && forall k: nat :: k < |chain| - 1 ==> Adjustment(chain[k], chain[k + 1])
  }

  ghost predicate FromTo(chain: seq<seq<nat>>, b: seq<nat>, b': seq<nat>) {
    Adjustments(chain) && chain[0] == b && chain[|chain| - 1] == b'
  }

  /** Adjusted until no code is longer than sixteen bits. */
  ghost predicate Shortened(b: seq<nat>, b': seq<nat>) {
    |b'| == MAX_CLEN + 1 && (forall l :: 16 < l <= MAX_CLEN ==> b'[l] == 0) &&
    exists chain :: FromTo(chain, b, b')
  }

  lemma AdjustmentUnique(b: seq<nat>, x: seq<nat>, y: seq<nat>)
    requires Adjustment(b, x) && Adjustment(b, y)
    ensures x == y
  {
    var i: nat, j: nat :| AdjustedAt(b, x, i, j);
    var i': nat, j': nat :| AdjustedAt(b, y, i', j');
    assert i == i' && j == j';
    assert forall l: nat :: l <= MAX_CLEN ==> x[l] == b[l] + Change(l, i, j) && y[l] == b[l] + Change(l, i, j);
  }

  /** There is only one way to adjust. */
  lemma {:induction false} ChainUnique(c: seq<seq<nat>>, d: seq<seq<nat>>, b: seq<nat>, x: seq<nat>, y: seq<nat>)
    requires FromTo(c, b, x) && FromTo(d, b, y) && |x| == |y| == MAX_CLEN + 1
    requires forall l :: 16 < l <= MAX_CLEN ==> x[l] == y[l] == 0
    ensures x == y
  {
    if |c| == 1 || |d| == 1 {
      assert (|c| > 1 ==> Adjustment(c[0], c[1])) && (|d| > 1 ==> Adjustment(d[0], d[1]));
    } else {
      assert Adjustment(c[0], c[1]) && Adjustment(d[0], d[1]);
      AdjustmentUnique(b, c[1], d[1]);
      TailFromTo(c, b, x);
      TailFromTo(d, b, y);
      ChainUnique(c[1..], d[1..], c[1], x, y);
    }
  }

  lemma TailFromTo(c: seq<seq<nat>>, b: seq<nat>, x: seq<nat>)
    requires FromTo(c, b, x) && |c| > 1
    ensures FromTo(c[1..], c[1], x)
  {
    forall k: nat | k < |c[1..]| - 1
      ensures Adjustment(c[1..][k], c[1..][k + 1])
    {
      assert Adjustment(c[k + 1], c[k + 2]);
    }
  }

  lemma ShortenedUnique(b: seq<nat>, x: seq<nat>, y: seq<nat>)
    requires Shortened(b, x) && Shortened(b, y)
    ensures x == y
  {
    var c :| FromTo(c, b, x);
    var d :| FromTo(d, b, y);
    ChainUnique(c, d, b, x, y);
  }

  lemma OneMoreAdjustment(chain: seq<seq<nat>>, b: seq<nat>, x: seq<nat>, y: seq<nat>)
    requires FromTo(chain, b, x) && Adjustment(x, y)
    ensures FromTo(chain + [y], b, y)
  {
  }

  /** The counts stand for a complete code of `n` symbols, no code longer than `i` bits. */
  ghost predicate Limited(bits: seq<nat>, i: nat, n: nat) {
    |bits| == MAX_CLEN + 1 && i <= MAX_CLEN && FullCount(bits, i, n) && Count(bits, MAX_CLEN) == n &&
    forall l :: i < l <= MAX_CLEN ==> bits[l] == 0
  }

  lemma {:induction false} CountTop(bits: seq<nat>, i: nat, m: nat)
    requires i <= m < |bits| && forall l :: i < l <= m ==> bits[l] == 0
    ensures Count(bits, m) == Count(bits, i)
    decreases m - i
  {
    if i < m { CountTop(bits, i, m - 1); }
  }

  /** The longest codes come in pairs. */
  lemma LongestPaired(bits: seq<nat>, i: nat, n: nat)
    requires Limited(bits, i, n) && i >= 1 && bits[i] > 0
    ensures bits[i] >= 2
  {
    assert Pow2(i) == 2 * Pow2(i - 1);
  }

  /** No codes of the longest length: the limit moves down. */
  lemma LimitDown(bits: seq<nat>, i: nat, n: nat)
    requires Limited(bits, i, n) && i >= 1 && bits[i] == 0
    ensures Limited(bits, i - 1, n)
  {
    assert Pow2(i) == 2 * Pow2(i - 1);
  }

  lemma {:induction false} NoShorter(bits: seq<nat>, j: nat)
    requires j < |bits| && forall l :: 1 <= l <= j ==> bits[l] == 0
    ensures Kraft(bits, j) == 0
  {
    if j > 0 { NoShorter(bits, j - 1); }
  }

  /** 255 codes of the two longest lengths cannot fill the code space: there is a shorter one. */
  lemma SearchStops(bits: seq<nat>, i: nat, n: nat)
    requires Limited(bits, i, n) && n <= 255 && i > 16
    ensures exists l :: 1 <= l <= i - 2 && bits[l] > 0
  {
    CountOfTwo(bits, i, i - 1, i);
    BigPower(i);
    if forall l :: 1 <= l <= i - 2 ==> bits[l] == 0 { TwoLengths(bits, i); }
  }

  lemma TwoLengths(bits: seq<nat>, i: nat)
    requires 2 <= i < |bits| && forall l :: 1 <= l <= i - 2 ==> bits[l] == 0
    ensures Kraft(bits, i) == 2 * bits[i - 1] + bits[i]
  {
    NoShorter(bits, i - 2);
  }

  lemma BigPower(i: nat)
    requires i > 16
    ensures Pow2(i) > 510
  {
    Pow2Monotone(16, i);
    Powers();
  }

  /** The length of the code that becomes a prefix. */
  method FindPrefix(bits: array<Byte>, i: nat, ghost n: nat) returns (j: nat)
    requires bits.Length == MAX_CLEN + 1 && Limited(bits[..], i, n) && n <= 255 && i > 16
    ensures 1 <= j <= i - 2 && bits[j] > 0 && forall l :: j < l <= i - 2 ==> bits[l] == 0
  {
    SearchStops(bits[..], i, n);
    j := i - 2;
    while bits[j] == 0
      invariant 1 <= j <= i - 2 && forall l :: j < l <= i - 2 ==> bits[l] == 0
      decreases j
    {
      j := j - 1;
    }
  }

  /** The counts after one pair of codes of length `i` is moved up. */
  function Moved(bits: seq<int>, i: nat, j: nat): seq<int>
    requires 1 <= j <= i - 2 && i < |bits|
  {
    var b3 := Received(bits, i, j);
    b3[j := b3[j] - 1]
  }

  function Received(bits: seq<int>, i: nat, j: nat): seq<int>
    requires 1 <= j <= i - 2 && i < |bits|
  {
    var b2 := bits[i := bits[i] - 2][i - 1 := bits[i - 1] + 1];
    b2[j + 1 := b2[j + 1] + 2]
  }

  lemma MovedParts(bits: seq<nat>, i: nat, j: nat, n: nat)
    requires Limited(bits, i, n) && n <= 255 && 16 < i && 1 <= j <= i - 2 && bits[j] > 0 && bits[i] >= 2
    ensures bits[i - 1] + 1 <= 255
    ensures (if j + 1 == i - 1 then bits[j + 1] + 1 else bits[j + 1]) + 2 <= 255
  {
    CountOfTwo(bits, MAX_CLEN, i - 1, i);
    CountOfTwo(bits, MAX_CLEN, j, j + 1);
    if j + 1 == i - 1 { CountOfThree(bits, MAX_CLEN, j, j + 1, i); } else { CountOfThree(bits, MAX_CLEN, j, j + 1, i); }
  }

  lemma {:induction false} CountOfThree(bits: seq<nat>, l: nat, x: nat, y: nat, z: nat)
    requires 1 <= x < y < z <= l < |bits|
    ensures bits[x] + bits[y] + bits[z] <= Count(bits, l)
  {
    if z < l { CountOfThree(bits, l - 1, x, y, z); } else { CountOfTwo(bits, l - 1, x, y); }
  }

  /** Moving a pair keeps the number of codes and the space they fill. */
  lemma MovedLimited(bits: seq<nat>, i: nat, j: nat, n: nat)
    requires Limited(bits, i, n) && n <= 255 && 16 < i && 1 <= j <= i - 2 && bits[j] > 0 && bits[i] >= 2
    ensures forall l :: 0 <= l <= MAX_CLEN ==> Moved(bits, i, j)[l] >= 0
    ensures Limited(Moved(bits, i, j), i, n)
  {
    hide Count, Kraft;
    var b1: seq<nat> := bits[i := bits[i] - 2];
    var b2: seq<nat> := b1[i - 1 := b1[i - 1] + 1];
    var b3: seq<nat> := b2[j + 1 := b2[j + 1] + 2];
    var b4: seq<nat> := b3[j := b3[j] - 1];
    MovedKraft(bits, b1, b2, b3, b4, i, j);
    MovedCount(bits, b1, b2, b3, b4, i, j, i);
    MovedCount(bits, b1, b2, b3, b4, i, j, MAX_CLEN);
  }

  lemma MovedKraft(b0: seq<nat>, b1: seq<nat>, b2: seq<nat>, b3: seq<nat>, b4: seq<nat>, i: nat, j: nat)
    requires 1 <= j <= i - 2 && i < |b0| == |b1| == |b2| == |b3| && b0[i] >= 2 && b3[j] >= 1
    requires b1 == b0[i := b0[i] - 2] && b2 == b1[i - 1 := b1[i - 1] + 1] && b3 == b2[j + 1 := b2[j + 1] + 2] &&
             b4 == b3[j := b3[j] - 1]
    ensures Kraft(b4, i) == Kraft(b0, i)
  {
    KraftUpdate(b0, i, i, b0[i] - 2);
    KraftUpdate(b1, i, i - 1, b1[i - 1] + 1);
    KraftUpdate(b2, i, j + 1, b2[j + 1] + 2);
    KraftUpdate(b3, i, j, b3[j] - 1);
    assert Pow2(0) == 1 && Pow2(1) == 2;
    assert Pow2(i - j) == 2 * Pow2(i - (j + 1));
  }

  lemma CountChange(b: seq<nat>, b': seq<nat>, m: nat, x: nat, d: int)
    requires 1 <= x <= m < |b| && b[x] + d >= 0 && b' == b[x := b[x] + d]
    ensures Count(b', m) == Count(b, m) + d
  {
    CountUpdate(b, m, x, b[x] + d);
  }

  lemma MovedCount(b0: seq<nat>, b1: seq<nat>, b2: seq<nat>, b3: seq<nat>, b4: seq<nat>, i: nat, j: nat, m: nat)
    requires 1 <= j <= i - 2 && i <= m < |b0| == |b1| == |b2| == |b3| && b0[i] >= 2 && b3[j] >= 1
    requires b1 == b0[i := b0[i] - 2] && b2 == b1[i - 1 := b1[i - 1] + 1] && b3 == b2[j + 1 := b2[j + 1] + 2] &&
             b4 == b3[j := b3[j] - 1]
    ensures Count(b4, m) == Count(b0, m)
  {
    CountChange(b0, b1, m, i, -2);
    CountChange(b1, b2, m, i - 1, 1);
    CountChange(b2, b3, m, j + 1, 2);
    CountChange(b3, b4, m, j, -1);
  }

  /** One pair of the longest codes: one takes their common prefix, the other goes below a
      shorter code. */
  method MovePair(bits: array<Byte>, i: nat, ghost n: nat) returns (j: nat)
    requires bits.Length == MAX_CLEN + 1 && Limited(bits[..], i, n) && n <= 255 && i > 16 && bits[i] > 0
    modifies bits
    ensures 1 <= j <= i - 2 && old(bits[j]) > 0 && forall l :: j < l <= i - 2 ==> old(bits[l]) == 0
    ensures bits[..] == Moved(old(bits[..]), i, j) && Adjustment(old(bits[..]), bits[..])
    ensures Limited(bits[..], i, n) && bits[i] < old(bits[i])
  {
    LongestPaired(bits[..], i, n);
    j := FindPrefix(bits, i, n);
    ghost var b := bits[..];
    MovedParts(b, i, j, n);
    MovedLimited(b, i, j, n);
    bits[i] := bits[i] - 2;
    bits[i - 1] := bits[i - 1] + 1;
    assert bits[..] == b[i := b[i] - 2][i - 1 := b[i - 1] + 1];
    bits[j + 1] := bits[j + 1] + 2;
    assert bits[..] == Received(b, i, j);
    bits[j] := bits[j] - 1;
    assert bits[..] == Moved(b, i, j);
    MovedAdjusts(b, bits[..], i, j, n);
  }

  lemma MovedAdjusts(b: seq<nat>, b': seq<nat>, i: nat, j: nat, n: nat)
    requires Limited(b, i, n) && 16 < i && 1 <= j <= i - 2 && b[i] > 0 && b[j] > 0 && b' == Moved(b, i, j)
    requires forall l :: j < l <= i - 2 ==> b[l] == 0
    ensures Adjustment(b, b')
  {
    hide FullCount, Count;
    assert AdjustedAt(b, b', i, j);
  }

  /** The length limit: the same number of codes, still filling the code space, none of them
      over 16 bits long, by adjusting the longest codes as long as they are longer. */
  method LimitLengths(bits: array<Byte>, ghost n: nat)
    requires bits.Length == MAX_CLEN + 1 && FullCount(bits[..], MAX_CLEN, n) && n <= 255
    modifies bits
    ensures Limited(bits[..], 16, n) && Shortened(old(bits[..]), bits[..])
    ensures (forall l :: 16 < l <= MAX_CLEN ==> old(bits[l]) == 0) ==> bits[..] == old(bits[..])
  {
    hide Adjustment, Adjustments;
    ghost var b := bits[..];
    ghost var chain: seq<seq<nat>> := [b];
    NoneAdjusted(b);
    var i := MAX_CLEN;
    while i > 16
      invariant 16 <= i <= MAX_CLEN && Limited(bits[..], i, n) && FromTo(chain, b, bits[..])
      invariant (forall l :: 16 < l <= MAX_CLEN ==> b[l] == 0) ==> bits[..] == b
    {
      while bits[i] > 0
        invariant Limited(bits[..], i, n) && FromTo(chain, b, bits[..])
        invariant (forall l :: 16 < l <= MAX_CLEN ==> b[l] == 0) ==> bits[..] == b
        decreases bits[i]
      {
        ghost var x := bits[..];
        var j := MovePair(bits, i, n);
        OneMoreAdjustment(chain, b, x, bits[..]);
        chain := chain + [bits[..]];
      }
      LimitDown(bits[..], i, n);
      i := i - 1;
    }
  }

  lemma NoneAdjusted(b: seq<nat>)
    ensures FromTo([b], b, b)
  {
  }

  lemma SomeCode(bits: seq<nat>, n: nat)
    requires Limited(bits, 16, n)
    ensures exists l :: 1 <= l <= 16 && bits[l] > 0
  {
    if forall l :: 1 <= l <= 16 ==> bits[l] == 0 { NoShorter(bits, 16); }
  }

  /** Take one code of the largest length away, for the pseudo-symbol. */
  method DropPseudo(bits: array<Byte>, ghost n: nat) returns (i: nat)
    requires bits.Length == MAX_CLEN + 1 && Limited(bits[..], 16, n)
    modifies bits
    ensures LongestUsed(old(bits[..]), i, 16) && bits[..] == old(bits[..])[i := old(bits[i]) - 1]
    ensures Kraft(bits[..], 16) < Pow2(16) && Count(bits[..], 16) == n - 1
  {
    ghost var b := bits[..];
    i := 16;
    SomeCode(b, n);
    while bits[i] == 0
      invariant 1 <= i <= 16 && forall l :: i < l <= 16 ==> bits[l] == 0
      decreases i
    {
      i := i - 1;
    }
    bits[i] := bits[i] - 1;
    OneCodeLess(b, i, n);
  }

  lemma OneCodeLess(bits: seq<nat>, i: nat, n: nat)
    requires Limited(bits, 16, n) && 1 <= i <= 16 && bits[i] > 0
    ensures Kraft(bits[i := bits[i] - 1], 16) < Pow2(16) && Count(bits[i := bits[i] - 1], 16) == n - 1
  {
    CountChange(bits, bits[i := bits[i] - 1], 16, i, -1);
    KraftLess(bits, 16, i);
  }

  lemma {:induction false} KraftLess(bits: seq<nat>, l: nat, x: nat)
    requires x < |bits| && bits[x] > 0 && l < |bits| && x >= 1
    ensures if x <= l then Kraft(bits[x := bits[x] - 1], l) < Kraft(bits, l)
            else Kraft(bits[x := bits[x] - 1], l) == Kraft(bits, l)
  {
    if l > 0 { KraftLess(bits, l - 1, x); }
  }

  // ---- the list of symbols

  /** Order of the list: by code length, then by symbol. */
  predicate Precedes(cs: seq<nat>, x: nat, y: nat)
    requires x < |cs| && y < |cs|
  {
    cs[x] < cs[y] || (cs[x] == cs[y] && x < y)
  }

  /** The symbols with codes of fewer than `i` bits, and those below `j` with codes of `i` bits. */
  predicate Passed(cs: seq<nat>, x: nat, i: nat, j: nat)
    requires x < |cs|
  {
    1 <= cs[x] && (cs[x] < i || (cs[x] == i && x < j))
  }

  /** `list` holds the symbols passed so far, each once, in order. */
  ghost predicate ListedTo(cs: seq<nat>, list: seq<Byte>, i: nat, j: nat) {
    |cs| == SYMBOLS &&
    (forall x: Byte :: x in list <==> Passed(cs, x, i, j)) &&
    (forall p, q :: 0 <= p < q < |list| ==> Precedes(cs, list[p], list[q]))
  }

  /** The symbols with codes of `l` bits are listed side by side, behind those with shorter codes. */
  ghost predicate Band(cs: seq<nat>, list: seq<Byte>, l: nat) {
    |cs| == SYMBOLS && l > 0 && UpToLength(cs, PSEUDO, l) <= |list| &&
    forall q :: UpToLength(cs, PSEUDO, l - 1) <= q < UpToLength(cs, PSEUDO, l) ==> cs[list[q]] == l
  }

  ghost predicate Bands(cs: seq<nat>, list: seq<Byte>, i: nat) {
    forall l: nat :: 1 <= l < i ==> Band(cs, list, l)
  }

  lemma BandsKept(cs: seq<nat>, list: seq<Byte>, more: seq<Byte>, i: nat)
    requires Bands(cs, list, i) && list <= more
    ensures Bands(cs, more, i)
  {
    forall l: nat | 1 <= l < i
      ensures Band(cs, more, l)
    {
      assert Band(cs, list, l);
    }
  }

  lemma ListRoom(cs: seq<nat>, i: nat, j: nat)
    requires |cs| == SYMBOLS && UpToLength(cs, PSEUDO, MAX_CLEN) <= 256 && 1 <= i <= MAX_CLEN && j < PSEUDO &&
             cs[j] == i
    ensures UpToLength(cs, PSEUDO, i - 1) + OfLength(cs, j, i) < 256
  {
    OfLengthGrows(cs, j + 1, PSEUDO, i);
    UpToGrows(cs, PSEUDO, i, MAX_CLEN);
  }

  /** List the real symbols by code length. */
  method ListSymbols(codesize: array<nat>, huffval: array<Byte>) returns (p: nat)
    requires codesize.Length == SYMBOLS && huffval.Length == 256
    requires UpToLength(codesize[..], PSEUDO, MAX_CLEN) <= 256 &&
             forall x :: 0 <= x < SYMBOLS ==> codesize[x] <= MAX_CLEN
    modifies huffval
    ensures p == UpToLength(codesize[..], PSEUDO, MAX_CLEN) <= 256
    ensures ListedTo(codesize[..], huffval[..p], MAX_CLEN + 1, 0) &&
            Bands(codesize[..], huffval[..p], MAX_CLEN + 1)
  {
    hide ListedTo, Bands;
    ghost var cs := codesize[..];
    NoneListed(cs);
    p := 0;
    for i := 1 to MAX_CLEN + 1
      invariant p == UpToLength(cs, PSEUDO, i - 1) && p <= 256 && ListedTo(cs, huffval[..p], i, 0) &&
                Bands(cs, huffval[..p], i)
    {
      ghost var first := p;
      for j := 0 to PSEUDO
        invariant p == UpToLength(cs, PSEUDO, i - 1) + OfLength(cs, j, i) && p <= 256 &&
                  ListedTo(cs, huffval[..p], i, j)
        invariant Bands(cs, huffval[..p], i) && forall q :: first <= q < p ==> cs[huffval[q]] == i
      {
        if codesize[j] == i {
          ListRoom(cs, i, j);
          ListGrows(cs, huffval[..p], i, j);
          ghost var list := huffval[..p];
          huffval[p] := j;
          p := p + 1;
          assert huffval[..p] == list + [j];
          BandsKept(cs, list, huffval[..p], i);
        } else {
          ListSkips(cs, huffval[..p], i, j);
        }
      }
      ListedOn(cs, huffval[..p], i);
      OneMoreBand(cs, huffval[..p], i);
    }
  }

  lemma NoneListed(cs: seq<nat>)
    requires |cs| == SYMBOLS
    ensures ListedTo(cs, [], 1, 0) && Bands(cs, [], 1)
  {
  }

  lemma ListSkips(cs: seq<nat>, list: seq<Byte>, i: nat, j: nat)
    requires ListedTo(cs, list, i, j) && j < SYMBOLS && cs[j] != i
    ensures ListedTo(cs, list, i, j + 1)
  {
    forall x: Byte
      ensures x in list <==> Passed(cs, x, i, j + 1)
    {
      assert x in list <==> Passed(cs, x, i, j);
    }
  }

  lemma ListedOn(cs: seq<nat>, list: seq<Byte>, i: nat)
    requires ListedTo(cs, list, i, PSEUDO)
    ensures ListedTo(cs, list, i + 1, 0)
  {
    forall x: Byte
      ensures x in list <==> Passed(cs, x, i + 1, 0)
    {
      assert x in list <==> Passed(cs, x, i, PSEUDO);
    }
  }

  lemma OneMoreBand(cs: seq<nat>, list: seq<Byte>, i: nat)
    requires |cs| == SYMBOLS && i > 0 && Bands(cs, list, i) && |list| == UpToLength(cs, PSEUDO, i)
    requires forall q :: UpToLength(cs, PSEUDO, i - 1) <= q < |list| ==> cs[list[q]] == i
    ensures Bands(cs, list, i + 1)
  {
    forall l: nat | 1 <= l < i + 1
      ensures Band(cs, list, l)
    {
      if l < i { assert Band(cs, list, l); }
    }
  }

  lemma ListGrows(cs: seq<nat>, list: seq<Byte>, i: nat, j: Byte)
    requires ListedTo(cs, list, i, j) && cs[j] == i >= 1
    ensures ListedTo(cs, list + [j], i, j + 1)
  {
    forall p | 0 <= p < |list|
      ensures Precedes(cs, list[p], j)
    {
      assert list[p] in list;
    }
  }

  // ---- the whole function

  /** The symbols a code is made for: those counted, and the pseudo-symbol. */
  ghost function Coded(counts: seq<nat>): seq<bool>
    requires |counts| == SYMBOLS
  {
    seq(SYMBOLS, x requires 0 <= x < SYMBOLS => x == PSEUDO || counts[x] > 0)
  }

  /** A table for the given counts: every symbol counted, and no other, has one code; the code
      is prefix-free with room to spare, so that no code is all ones. */
  ghost predicate TableFor(counts: seq<nat>, h: HuffTable) {
    |counts| == SYMBOLS && h.Valid() && Kraft(h.bits, 16) < Pow2(16) &&
    Count(h.bits, 16) == InUse(Coded(counts), PSEUDO) &&
    (forall x: Byte :: x in h.huffval[..Count(h.bits, 16)] <==> counts[x] > 0) &&
    (forall p, q :: 0 <= p < q < Count(h.bits, 16) ==> h.huffval[p] != h.huffval[q]) && NoneAllOnes(h.bits)
  }

  /** No code consists of ones only. */
  ghost predicate NoneAllOnes(bits: seq<nat>)
    requires |bits| == 17
  {
    forall l: nat, j: nat :: IsCode(bits, l, j) ==> CodeBits(bits, l, j) != seq(l, _ => true)
  }

  lemma NeverAllOnes(bits: seq<nat>)
    requires |bits| == 17 && Kraft(bits, 16) < Pow2(16)
    ensures NoneAllOnes(bits)
  {
    hide Kraft, CodeBits, IsCode;
    forall l: nat, j: nat | IsCode(bits, l, j)
      ensures CodeBits(bits, l, j) != seq(l, _ => true)
    {
      NoAllOnes(bits, l, j);
    }
  }

  datatype Result = Table(table: HuffTable) | ClenOverflow

  /** jpeg_gen_optimal_table. The counts are used up. */
  method GenOptimalTable(freq: array<nat>, ghost y: nat) returns (r: Result, ghost cs: seq<nat>)
    requires freq.Length == SYMBOLS && Sum(freq[..], PSEUDO) <= LARGEST
    requires y < PSEUDO && freq[y] > 0 && InUse(Coded(freq[..]), PSEUDO) <= 254
    modifies freq
    ensures CompleteCode(Coded(old(freq[..])), cs) && Optimal(old(freq[..])[PSEUDO := 1], cs) && PseudoLongest(cs)
    ensures r.Table? <==> forall x :: 0 <= x < SYMBOLS ==> cs[x] <= MAX_CLEN
    ensures r.Table? ==> TableFor(old(freq[..]), r.table) && MadeFrom(cs, r.table)
    ensures r.Table? && NoneAbove(cs, 16) ==> OwnLengths(cs, r.table)
  {
    hide TableFor, Optimal, CompleteCode, Precedes, InUse, MadeFrom, Shortened, PseudoLongest, Bands, ListedTo,
         OwnLengths, OfLength, UpToLength, Kraft, FullCount, Limited, LongestUsed, Pow2;
    ghost var counts := freq[..];
    ghost var used := Coded(counts);
    var codesize := Merge(freq, used, y);
    cs := codesize[..];
    InUseUpToReal(used, cs);
    var ok, bits := CountSizes(codesize, used);
    if !ok { return ClenOverflow, cs; }
    ghost var sizes := bits[..];
    LimitLengths(bits, InUse(used, SYMBOLS));
    ghost var short := bits[..];
    var i := DropPseudo(bits, InUse(used, SYMBOLS));
    var huffval := new Byte[256];
    var p := ListSymbols(codesize, huffval);
    TableComplete(counts, cs, sizes, short, bits[..], i, huffval[..], p);
    r := Table(HuffTable(bits[..17], huffval[..]));
  }

  /** A table made from some best code for the counts: without codes of more than sixteen bits, the code itself. */
  ghost predicate BestTable(counts: seq<nat>, h: HuffTable) {
    |counts| == SYMBOLS && exists cs :: BestWith(counts, cs, h)
  }

  ghost predicate BestWith(counts: seq<nat>, cs: seq<nat>, h: HuffTable)
    requires |counts| == SYMBOLS
  {
    CompleteCode(Coded(counts), cs) && Optimal(counts[PSEUDO := 1], cs) && NoneAbove(cs, MAX_CLEN) &&
    MadeFrom(cs, h) && (NoneAbove(cs, 16) ==> OwnLengths(cs, h))
  }

  /** What has been found of the parts, said of the table. */
  lemma TableComplete(counts: seq<nat>, cs: seq<nat>, sizes: seq<nat>, short: seq<nat>, bits: seq<nat>, i: nat,
      huffval: seq<Byte>, p: nat)
    requires |counts| == |cs| == SYMBOLS && CompleteCode(Coded(counts), cs) && PseudoLongest(cs) &&
             NoneAbove(cs, MAX_CLEN)
    requires |sizes| == |short| == MAX_CLEN + 1 && FullCount(sizes, MAX_CLEN, InUse(Coded(counts), SYMBOLS)) &&
             forall l: nat :: 1 <= l <= MAX_CLEN ==> sizes[l] == OfLength(cs, SYMBOLS, l)
    requires Shortened(sizes, short) && ((forall l :: 16 < l <= MAX_CLEN ==> sizes[l] == 0) ==> short == sizes)
    requires LongestUsed(short, i, 16) && bits == short[i := short[i] - 1]
    requires |huffval| == 256 && p == InUse(Coded(counts), PSEUDO) <= 256 && Kraft(bits, 16) < Pow2(16) &&
             Count(bits, 16) == p && ListedTo(cs, huffval[..p], MAX_CLEN + 1, 0) &&
             Bands(cs, huffval[..p], MAX_CLEN + 1)
    ensures var h := HuffTable(bits[..17], huffval);
            TableFor(counts, h) && MadeFrom(cs, h) && (NoneAbove(cs, 16) ==> OwnLengths(cs, h))
  {
    hide Optimal, CompleteCode, Precedes, InUse, Shortened, PseudoLongest, Bands, OfLength, Kraft, Count, ListedTo,
         NoneAllOnes, IsCode;
    var h := HuffTable(bits[..17], huffval);
    TableMade(counts, cs, bits, huffval, p);
    CutCounts(bits, bits[..17], 16);
    TableFrom(cs, sizes, short, bits, i, huffval, p);
    if NoneAbove(cs, 16) {
      SizesKept(cs, sizes, short, bits, i, Coded(counts));
      OwnMade(cs, h, p);
    }
  }

  /** How many codes of each length there are, the pseudo-symbol's included. */
  function LengthCounts(cs: seq<nat>): seq<nat>
    requires |cs| == SYMBOLS
  {
    seq(MAX_CLEN + 1, l requires 0 <= l <= MAX_CLEN => if l == 0 then 0 else OfLength(cs, SYMBOLS, l))
  }

  /** The table has as many codes of each length as there are optimal ones, shortened as far as necessary, less
      one of the longest; its symbols are in the order of their optimal lengths. */
  ghost predicate MadeFrom(cs: seq<nat>, h: HuffTable) {
    |cs| == SYMBOLS && h.WellFormed() &&
    (exists b: seq<nat>, i: nat :: OneDropped(cs, b, i, h.bits)) &&
    forall p, q :: 0 <= p < q < Count(h.bits, 16) ==> Precedes(cs, h.huffval[p], h.huffval[q])
  }

  ghost predicate OneDropped(cs: seq<nat>, b: seq<nat>, i: nat, bits: seq<nat>)
    requires |cs| == SYMBOLS
  {
    Shortened(LengthCounts(cs), b) && LongestUsed(b, i, 16) && bits == b[..17][i := b[i] - 1]
  }

  ghost predicate NoneAbove(cs: seq<nat>, m: nat) {
    forall x :: 0 <= x < |cs| ==> cs[x] <= m
  }

  /** Every code has the optimal length of its symbol. */
  ghost predicate OwnLengths(cs: seq<nat>, h: HuffTable)
    requires |cs| == SYMBOLS && h.WellFormed()
  {
    forall l: nat, j: nat :: IsCode(h.bits, l, j) ==> cs[SymbolOf(h, l, j)] == l
  }

  /** The workspace, the pseudo-symbol, and Huffman's algorithm. */
  method Merge(freq: array<nat>, ghost used: seq<bool>, ghost y: nat) returns (codesize: array<nat>)
    requires freq.Length == SYMBOLS && Sum(freq[..], PSEUDO) <= LARGEST && used == Coded(freq[..])
    requires y < PSEUDO && freq[y] > 0
    modifies freq
    ensures fresh(codesize) && codesize.Length == SYMBOLS
    ensures CompleteCode(used, codesize[..]) && Optimal(old(freq[..])[PSEUDO := 1], codesize[..])
    ensures PseudoLongest(codesize[..])
  {
    ghost var counts := freq[..];
    codesize := new nat[SYMBOLS](_ => 0);
    var others := new int[SYMBOLS](_ => -1);
    freq[PSEUDO] := 1;
    SamePrefix(counts, freq[..], PSEUDO);
    assert freq[..] == counts[PSEUDO := 1] && Mask(freq[..]) == used;
    MergeAll(freq, codesize, others, used, y);
  }

  lemma InUseUpToReal(used: seq<bool>, cs: seq<nat>)
    requires CompleteCode(used, cs) && used[PSEUDO]
    ensures InUse(used, SYMBOLS) == InUse(used, PSEUDO) + 1
    ensures (forall x :: 0 <= x < SYMBOLS ==> cs[x] <= MAX_CLEN) ==>
              UpToLength(cs, PSEUDO, MAX_CLEN) == InUse(used, PSEUDO)
  {
    if forall x :: 0 <= x < SYMBOLS ==> cs[x] <= MAX_CLEN {
      InUseUpTo(used, cs, PSEUDO);
    }
  }

  lemma {:induction false} SamePrefix(a: seq<nat>, b: seq<nat>, n: nat)
    requires n <= |a| == |b| && a[..n] == b[..n]
    ensures Sum(a, n) == Sum(b, n)
  {
    if n > 0 {
      assert a[..n - 1] == a[..n][..n - 1] && b[..n - 1] == b[..n][..n - 1];
      assert a[n - 1] == a[..n][n - 1] && b[n - 1] == b[..n][n - 1];
      SamePrefix(a, b, n - 1);
    }
  }

  lemma {:induction false} CutCounts(bits: seq<nat>, cut: seq<nat>, l: nat)
    requires l < |cut| <= |bits| && cut == bits[..|cut|]
    ensures Count(cut, l) == Count(bits, l) && Kraft(cut, l) == Kraft(bits, l)
  {
    if l > 0 { CutCounts(bits, cut, l - 1); }
  }

  lemma TableFrom(cs: seq<nat>, sizes: seq<nat>, short: seq<nat>, bits: seq<nat>, i: nat, huffval: seq<Byte>, p: nat)
    requires |cs| == SYMBOLS && |sizes| == |short| == |bits| == MAX_CLEN + 1 && sizes[0] == 0 &&
             forall l: nat :: 1 <= l <= MAX_CLEN ==> sizes[l] == OfLength(cs, SYMBOLS, l)
    requires Shortened(sizes, short) && LongestUsed(short, i, 16) && bits == short[i := short[i] - 1]
    requires HuffTable(bits[..17], huffval).WellFormed() && p == Count(bits[..17], 16)
    requires forall q, r :: 0 <= q < r < p ==> Precedes(cs, huffval[q], huffval[r])
    ensures MadeFrom(cs, HuffTable(bits[..17], huffval))
  {
    hide Shortened, OfLength, Count, Precedes;
    assert sizes == LengthCounts(cs);
    assert bits[..17] == short[..17][i := short[i] - 1];
    assert OneDropped(cs, short, i, bits[..17]);
  }

  /** Without longer codes nothing is adjusted, and the code dropped is the pseudo-symbol's own. */
  lemma SizesKept(cs: seq<nat>, sizes: seq<nat>, short: seq<nat>, bits: seq<nat>, i: nat, used: seq<bool>)
    requires PseudoLongest(cs) && CompleteCode(used, cs) && used[PSEUDO] && NoneAbove(cs, 16)
    requires |sizes| == |short| == |bits| == MAX_CLEN + 1 &&
             forall l: nat :: 1 <= l <= MAX_CLEN ==> sizes[l] == OfLength(cs, SYMBOLS, l)
    requires (forall l :: 16 < l <= MAX_CLEN ==> sizes[l] == 0) ==> short == sizes
    requires LongestUsed(short, i, 16) && bits == short[i := short[i] - 1]
    ensures forall l: nat :: 1 <= l <= 16 ==> bits[l] == OfLength(cs, PSEUDO, l)
  {
    forall l: nat | 16 < l <= MAX_CLEN
      ensures sizes[l] == 0
    {
      NoneOf(cs, SYMBOLS, l);
    }
    forall l: nat | l > cs[PSEUDO] && l <= 16
      ensures short[l] == 0
    {
      NoneOf(cs, SYMBOLS, l);
    }
    assert OfLength(cs, SYMBOLS, cs[PSEUDO]) == OfLength(cs, PSEUDO, cs[PSEUDO]) + 1;
    assert i == cs[PSEUDO];
  }

  lemma {:induction false} NoneOf(cs: seq<nat>, n: nat, l: nat)
    requires n <= |cs| && forall x :: 0 <= x < |cs| ==> cs[x] < l
    ensures OfLength(cs, n, l) == 0
  {
    if n > 0 { NoneOf(cs, n - 1, l); }
  }

  lemma OwnMade(cs: seq<nat>, h: HuffTable, p: nat)
    requires |cs| == SYMBOLS && h.WellFormed() && p == Count(h.bits, 16) && Bands(cs, h.huffval[..p], MAX_CLEN + 1)
    requires forall l: nat :: 1 <= l <= 16 ==> h.bits[l] == OfLength(cs, PSEUDO, l)
    ensures OwnLengths(cs, h)
  {
    forall l: nat, j: nat | IsCode(h.bits, l, j)
      ensures cs[SymbolOf(h, l, j)] == l
    {
      CountsUpTo(h.bits, cs, l);
      assert Band(cs, h.huffval[..p], l);
    }
  }

  lemma {:induction false} CountsUpTo(bits: seq<nat>, cs: seq<nat>, l: nat)
    requires |cs| == SYMBOLS && l < |bits| <= 17 &&
             forall k: nat :: 1 <= k < |bits| ==> bits[k] == OfLength(cs, PSEUDO, k)
    ensures Count(bits, l) == UpToLength(cs, PSEUDO, l)
    ensures l > 0 ==> Count(bits, l - 1) == UpToLength(cs, PSEUDO, l - 1)
  {
    if l > 0 { CountsUpTo(bits, cs, l - 1); }
  }

  lemma TableMade(counts: seq<nat>, cs: seq<nat>, bits: seq<nat>, huffval: seq<Byte>, p: nat)
    requires |counts| == SYMBOLS && CompleteCode(Coded(counts), cs) &&
             forall x :: 0 <= x < SYMBOLS ==> cs[x] <= MAX_CLEN
    requires |bits| == MAX_CLEN + 1 && |huffval| == 256 && p == InUse(Coded(counts), PSEUDO) <= 256
    requires Kraft(bits, 16) < Pow2(16) && Count(bits, 16) == p && ListedTo(cs, huffval[..p], MAX_CLEN + 1, 0)
    ensures TableFor(counts, HuffTable(bits[..17], huffval))
    ensures forall q, r :: 0 <= q < r < p ==> Precedes(cs, huffval[q], huffval[r])
  {
    CutCounts(bits, bits[..17], 16);
    NeverAllOnes(bits[..17]);
    var h, list := HuffTable(bits[..17], huffval), huffval[..p];
    assert Count(h.bits, 16) == p;
    forall x: Byte
      ensures x in list <==> counts[x] > 0
    {
      assert x in list <==> Passed(cs, x, MAX_CLEN + 1, 0);
    }
    forall q, r | 0 <= q < r < p
      ensures Precedes(cs, huffval[q], huffval[r]) && huffval[q] != huffval[r]
    {
      assert Precedes(cs, list[q], list[r]);
    }
  }
}
