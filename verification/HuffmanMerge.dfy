/**
 * The first part of jpeg_gen_optimal_table (jchuff.c; ITU-T T.81, K.2): Huffman's algorithm,
 * merging trees in place over linked branches of symbols.
 */
module HuffmanMerge {
  import opened CodeLengths
  import opened HuffmanOptimality
  import opened PseudoSymbol

  // ---- the forest of branches

  /** Branches of the code trees: `branch[h]` lists the symbols of the tree headed by `h`;
      `owner` and `place` say where each symbol is. */
  datatype Forest = Forest(branch: seq<seq<nat>>, owner: seq<nat>, place: seq<nat>)

  predicate Located(f: Forest, used: seq<bool>, x: nat)
    requires |f.branch| == |f.owner| == |f.place| == |used| == SYMBOLS && x < SYMBOLS
  {
    used[x] ==> f.owner[x] < SYMBOLS && f.place[x] < |f.branch[f.owner[x]]| && f.branch[f.owner[x]][f.place[x]] == x
  }

  predicate Listed(f: Forest, used: seq<bool>, h: nat, k: nat)
    requires |f.branch| == |f.owner| == |f.place| == |used| == SYMBOLS && h < SYMBOLS && k < |f.branch[h]|
  {
    var x := f.branch[h][k];
    x < SYMBOLS && used[x] && f.owner[x] == h && f.place[x] == k
  }

  /** Every symbol in use is in exactly one place of one branch, and each branch begins with its head. */
  ghost predicate ForestOk(f: Forest, used: seq<bool>) {
    |f.branch| == |f.owner| == |f.place| == |used| == SYMBOLS &&
    (forall x: nat :: x < SYMBOLS ==> Located(f, used, x)) &&
    (forall h: nat, k: nat :: h < SYMBOLS && k < |f.branch[h]| ==> Listed(f, used, h, k)) &&
    (forall h: nat :: h < SYMBOLS && f.branch[h] != [] ==> f.branch[h][0] == h)
  }

  /** `others` links the symbols of a branch in order. */
  predicate Linked(branch: seq<nat>, others: seq<int>) {
    forall k: nat :: k < |branch| ==>
      branch[k] < |others| && others[branch[k]] == if k + 1 < |branch| then branch[k + 1] else -1
  }

  predicate Distinct(branch: seq<nat>) {
    forall k, l :: 0 <= k < l < |branch| ==> branch[k] != branch[l]
  }

  /** What the merging loop keeps. */
  ghost predicate Merging(f: Forest, used: seq<bool>, freq: seq<nat>, cs: seq<nat>, others: seq<int>) {
    ForestOk(f, used) && |freq| == |cs| == |others| == SYMBOLS &&
    (forall h: nat :: h < SYMBOLS ==> Linked(f.branch[h], others) && (freq[h] > 0 <==> f.branch[h] != [])) &&
    (forall h: nat :: h < SYMBOLS && f.branch[h] != [] ==> CompleteTree(f.branch[h], cs)) &&
    (forall x: nat :: x < SYMBOLS && !used[x] ==> cs[x] == 0) &&
    TotalWeight(used, cs, SYMBOLS) == Live(freq, SYMBOLS) as real
  }

  /** The codes of a branch fill the code space, and a branch of several symbols has no empty code. */
  predicate CompleteTree(branch: seq<nat>, cs: seq<nat>) {
    (forall k: nat :: k < |branch| ==> branch[k] < |cs|) &&
    BranchWeight(branch, cs, |branch|) == 1.0 &&
    (|branch| >= 2 ==> forall k: nat :: k < |branch| ==> cs[branch[k]] >= 1)
  }

  lemma BranchDistinct(f: Forest, used: seq<bool>, h: nat)
    requires ForestOk(f, used) && h < SYMBOLS
    ensures Distinct(f.branch[h])
  {
    forall k: nat, l: nat | k < l < |f.branch[h]|
      ensures f.branch[h][k] != f.branch[h][l]
    {
      assert Listed(f, used, h, k) && Listed(f, used, h, l);
    }
  }

  /** How often the first `n` symbols of a branch occur. */
  function BranchCount(branch: seq<nat>, counts: seq<nat>, n: nat): nat
    requires n <= |branch| && forall k :: 0 <= k < |branch| ==> branch[k] < |counts|
  {
    if n == 0 then 0 else BranchCount(branch, counts, n - 1) + counts[branch[n - 1]]
  }

  /** The frequency of a head is the count of its whole branch. */
  predicate HeadCount(branch: seq<nat>, counts: seq<nat>, freq: nat) {
    (forall k :: 0 <= k < |branch| ==> branch[k] < |counts|) && freq == BranchCount(branch, counts, |branch|)
  }

  /** Whatever lengths `ls` the symbols are given, some lengths for the trees that are left cost no more. */
  ghost predicate Matched(counts: seq<nat>, freq: seq<nat>, cs: seq<nat>, ls: seq<nat>)
    requires |counts| == |freq| == |cs| == |ls| == SYMBOLS
  {
    exists k :: Feasible(freq, k) && Cost(counts, cs, SYMBOLS) + Cost(freq, k, SYMBOLS) <= Cost(counts, ls, SYMBOLS)
  }

  /** Nothing is lost: the merges made so far are part of a cheapest code. */
  ghost predicate NothingLost(f: Forest, counts: seq<nat>, freq: seq<nat>, cs: seq<nat>) {
    |f.branch| == |counts| == |freq| == |cs| == SYMBOLS &&
    (forall h: nat :: h < SYMBOLS ==> HeadCount(f.branch[h], counts, freq[h])) &&
    (forall ls :: Feasible(counts, ls) ==> Matched(counts, freq, cs, ls))
  }

  /** The cheapest lengths that meet Kraft's inequality. */
  ghost predicate Optimal(counts: seq<nat>, cs: seq<nat>) {
    |counts| == |cs| == SYMBOLS && Feasible(counts, cs) &&
    forall ls :: Feasible(counts, ls) ==> Cost(counts, cs, SYMBOLS) <= Cost(counts, ls, SYMBOLS)
  }

  /** The smallest nonzero frequency, ties going to the larger symbol, `skip` left aside. */
  method FindSmallest(freq: array<nat>, skip: int) returns (c: int)
    requires freq.Length == SYMBOLS
    ensures -1 <= c < SYMBOLS
    ensures c == -1 ==> forall i :: 0 <= i < SYMBOLS && i != skip ==> freq[i] == 0 || freq[i] > LARGEST
    ensures c >= 0 ==> c != skip && 0 < freq[c] <= LARGEST
    ensures c >= 0 ==> forall i :: 0 <= i < SYMBOLS && i != skip && freq[i] > 0 ==>
                         freq[i] > freq[c] || (freq[i] == freq[c] && i <= c)
  {
    c := -1;
    var v := LARGEST;
    for i := 0 to SYMBOLS
      invariant -1 <= c < i
      invariant c == -1 ==> v == LARGEST && forall k :: 0 <= k < i && k != skip ==> freq[k] == 0 || freq[k] > LARGEST
      invariant v <= LARGEST
      invariant c >= 0 ==> c != skip && v == freq[c] > 0 && forall k :: 0 <= k < i && k != skip && freq[k] > 0 ==>
                             freq[k] > freq[c] || (freq[k] == freq[c] && k <= c)
    {
      if freq[i] != 0 && freq[i] <= v && i != skip {
        v := freq[i];
        c := i;
      }
    }
  }

  lemma NextLink(branch: seq<nat>, others: seq<int>, k: nat)
    requires Linked(branch, others) && k < |branch|
    ensures branch[k] < |others| && others[branch[k]] == if k + 1 < |branch| then branch[k + 1] else -1
  {
  }

  /** The codes of the first `n` symbols of a branch have been lengthened. */
  ghost predicate Walked(branch: seq<nat>, n: nat, used: seq<bool>, counts: seq<nat>, cs0: seq<nat>, cs: seq<nat>) {
    |cs0| == |cs| == |used| == |counts| == SYMBOLS && n <= |branch| &&
    (forall k: nat :: k < |branch| ==> branch[k] < SYMBOLS) &&
    (forall x :: 0 <= x < SYMBOLS ==> cs[x] == cs0[x] + (if x in branch[..n] then 1 else 0)) &&
    TotalWeight(used, cs, SYMBOLS) == TotalWeight(used, cs0, SYMBOLS) - BranchWeight(branch, cs0, n) / 2.0 &&
    Cost(counts, cs, SYMBOLS) == Cost(counts, cs0, SYMBOLS) + BranchCount(branch, counts, n)
  }

  lemma WalkStart(branch: seq<nat>, used: seq<bool>, counts: seq<nat>, cs: seq<nat>)
    requires |cs| == |used| == |counts| == SYMBOLS && forall k: nat :: k < |branch| ==> branch[k] < SYMBOLS
    ensures Walked(branch, 0, used, counts, cs, cs)
  {
  }

  lemma WalkOn(branch: seq<nat>, n: nat, used: seq<bool>, counts: seq<nat>, cs0: seq<nat>, cs: seq<nat>, x: nat)
    requires Walked(branch, n, used, counts, cs0, cs) && n < |branch| && x == branch[n] && used[x] && Distinct(branch)
    ensures Walked(branch, n + 1, used, counts, cs0, cs[x := cs[x] + 1])
  {
    assert branch[..n + 1] == branch[..n] + [x];
    assert x !in branch[..n];
    WeightUpdate(used, cs, SYMBOLS, x, cs[x] + 1);
    CostUpdate(counts, cs, SYMBOLS, x, cs[x] + 1);
  }

  /** Walk along a branch, lengthening every code on it by one; `last` is its last symbol. */
  method Lengthen(codesize: array<nat>, others: array<int>, c: nat, ghost branch: seq<nat>, ghost used: seq<bool>,
      ghost counts: seq<nat>) returns (last: nat)
    requires codesize.Length == others.Length == |used| == |counts| == SYMBOLS
    requires branch != [] && branch[0] == c && Linked(branch, others[..]) && Distinct(branch)
    requires forall k: nat :: k < |branch| ==> branch[k] < SYMBOLS && used[branch[k]]
    modifies codesize
    ensures last == branch[|branch| - 1]
    ensures Walked(branch, |branch|, used, counts, old(codesize[..]), codesize[..])
  {
    hide Walked;
    ghost var cs0, links := codesize[..], others[..];
    last := c;
    WalkStart(branch, used, counts, cs0);
    WalkOn(branch, 0, used, counts, cs0, codesize[..], last);
    Increment(codesize, last);
    ghost var k: nat := 0;
    while others[last] >= 0
      invariant k < |branch| && last == branch[k] && Walked(branch, k + 1, used, counts, cs0, codesize[..])
      decreases |branch| - k
    {
      NextLink(branch, links, k);
      last := others[last];
      k := k + 1;
      WalkOn(branch, k, used, counts, cs0, codesize[..], last);
      Increment(codesize, last);
    }
    NextLink(branch, links, k);
  }

  method Increment(codesize: array<nat>, x: nat)
    requires x < codesize.Length
    modifies codesize
    ensures codesize[..] == old(codesize[..])[x := old(codesize[x]) + 1]
  {
    codesize[x] := codesize[x] + 1;
  }

  // ---- one merge

  /** The forest with the branch of `b` hung onto the end of the branch of `a`. */
  ghost function Merged(f: Forest, a: nat, b: nat): Forest
    requires |f.branch| == |f.owner| == |f.place| == SYMBOLS && a < SYMBOLS && b < SYMBOLS
  {
    Forest(f.branch[a := f.branch[a] + f.branch[b]][b := []],
           seq(SYMBOLS, x requires 0 <= x < SYMBOLS => if f.owner[x] == b then a else f.owner[x]),
           seq(SYMBOLS, x requires 0 <= x < SYMBOLS => if f.owner[x] == b then |f.branch[a]| + f.place[x]
               else f.place[x]))
  }

  lemma MergedOk(f: Forest, used: seq<bool>, a: nat, b: nat)
    requires ForestOk(f, used) && a < SYMBOLS && b < SYMBOLS && a != b && f.branch[a] != [] && f.branch[b] != []
    ensures ForestOk(Merged(f, a, b), used)
  {
    var g := Merged(f, a, b);
    forall x: nat | x < SYMBOLS
      ensures Located(g, used, x)
    {
      assert Located(f, used, x);
    }
    forall h: nat, k: nat | h < SYMBOLS && k < |g.branch[h]|
      ensures Listed(g, used, h, k)
    {
      if h != a || k < |f.branch[a]| {
        assert Listed(f, used, h, k);
      } else {
        assert Listed(f, used, b, k - |f.branch[a]|);
      }
    }
  }

  /** Linking the last symbol of one branch to the head of another joins the branches. */
  lemma LinkBranches(f: Forest, used: seq<bool>, others: seq<int>, a: nat, b: nat, last: nat)
    requires ForestOk(f, used) && |others| == SYMBOLS && a < SYMBOLS && b < SYMBOLS && a != b
    requires f.branch[a] != [] && f.branch[b] != [] && last == f.branch[a][|f.branch[a]| - 1]
    requires forall h: nat :: h < SYMBOLS ==> Linked(f.branch[h], others)
    ensures last < SYMBOLS && Linked(f.branch[b], others[last := b])
    ensures forall h: nat :: h < SYMBOLS ==> Linked(Merged(f, a, b).branch[h], others[last := b])
  {
    var g := Merged(f, a, b);
    assert Listed(f, used, a, |f.branch[a]| - 1);
    BranchMembers(f, used, b);
    forall h: nat | h < SYMBOLS
      ensures Linked(g.branch[h], others[last := b])
    {
      forall k: nat | k < |g.branch[h]|
        ensures g.branch[h][k] < SYMBOLS
        ensures others[last := b][g.branch[h][k]] == if k + 1 < |g.branch[h]| then g.branch[h][k + 1] else -1
      {
        if h != a || k < |f.branch[a]| {
          assert Listed(f, used, h, k);
          NextLink(f.branch[h], others, k);
        } else {
          assert Listed(f, used, b, k - |f.branch[a]|);
          NextLink(f.branch[b], others, k - |f.branch[a]|);
        }
      }
    }
  }

  lemma {:induction false} BranchHalved(branch: seq<nat>, cs: seq<nat>, cs': seq<nat>, n: nat)
    requires n <= |branch| && |cs| == |cs'| && forall k :: 0 <= k < |branch| ==> branch[k] < |cs|
    requires forall k :: 0 <= k < |branch| ==> cs'[branch[k]] == cs[branch[k]] + 1
    ensures BranchWeight(branch, cs', n) == BranchWeight(branch, cs, n) / 2.0
  {
    if n > 0 { BranchHalved(branch, cs, cs', n - 1); }
  }

  lemma {:induction false} BranchSame(branch: seq<nat>, cs: seq<nat>, cs': seq<nat>, n: nat)
    requires n <= |branch| && |cs| == |cs'| && forall k :: 0 <= k < |branch| ==> branch[k] < |cs|
    requires forall k :: 0 <= k < |branch| ==> cs'[branch[k]] == cs[branch[k]]
    ensures BranchWeight(branch, cs', n) == BranchWeight(branch, cs, n)
  {
    if n > 0 { BranchSame(branch, cs, cs', n - 1); }
  }

  lemma {:induction false} BranchJoined(a: seq<nat>, b: seq<nat>, cs: seq<nat>, n: nat)
    requires n <= |b| && (forall k :: 0 <= k < |a| ==> a[k] < |cs|) && forall k :: 0 <= k < |b| ==> b[k] < |cs|
    ensures forall k :: 0 <= k < |a + b| ==> (a + b)[k] < |cs|
    ensures BranchWeight(a + b, cs, |a| + n) == BranchWeight(a, cs, |a|) + BranchWeight(b, cs, n)
  {
    if n == 0 { BranchPrefix(a, b, cs, |a|); } else { BranchJoined(a, b, cs, n - 1); }
  }

  lemma {:induction false} BranchPrefix(a: seq<nat>, b: seq<nat>, cs: seq<nat>, n: nat)
    requires n <= |a| && (forall k :: 0 <= k < |a| ==> a[k] < |cs|) && forall k :: 0 <= k < |b| ==> b[k] < |cs|
    ensures BranchWeight(a + b, cs, n) == BranchWeight(a, cs, n)
  {
    if n > 0 { BranchPrefix(a, b, cs, n - 1); }
  }

  /** Two complete trees, every code made one bit longer, make one complete tree. */
  lemma TreesJoin(a: seq<nat>, b: seq<nat>, cs: seq<nat>, cs': seq<nat>)
    requires CompleteTree(a, cs) && CompleteTree(b, cs) && |cs'| == |cs| && a != [] && b != []
    requires forall k: nat :: k < |a| ==> cs'[a[k]] == cs[a[k]] + 1
    requires forall k: nat :: k < |b| ==> cs'[b[k]] == cs[b[k]] + 1
    ensures CompleteTree(a + b, cs')
  {
    BranchHalved(a, cs, cs', |a|);
    BranchHalved(b, cs, cs', |b|);
    BranchJoined(a, b, cs', |b|);
  }

  lemma TreeKept(a: seq<nat>, cs: seq<nat>, cs': seq<nat>)
    requires CompleteTree(a, cs) && |cs'| == |cs| && forall k: nat :: k < |a| ==> cs'[a[k]] == cs[a[k]]
    ensures CompleteTree(a, cs')
  {
    BranchSame(a, cs, cs', |a|);
  }

  lemma BranchesDisjoint(f: Forest, used: seq<bool>, a: nat, b: nat)
    requires ForestOk(f, used) && a < SYMBOLS && b < SYMBOLS && a != b
    ensures forall x :: x in f.branch[a] ==> x !in f.branch[b]
  {
    BranchMembers(f, used, a);
    BranchMembers(f, used, b);
  }

  lemma RelinkedSecond(second: seq<nat>, others: seq<int>, last: nat, v: int)
    requires Linked(second, others) && last < |others| && last !in second
    ensures Linked(second, others[last := v])
  {
  }

  /** Walk along both branches, hanging the second onto the end of the first in between. */
  method LengthenBoth(codesize: array<nat>, others: array<int>, a: nat, b: nat, ghost first: seq<nat>,
      ghost second: seq<nat>, ghost used: seq<bool>, ghost counts: seq<nat>) returns (last: nat)
    requires codesize.Length == others.Length == |used| == |counts| == SYMBOLS
    requires first != [] && first[0] == a && Linked(first, others[..]) && Distinct(first)
    requires second != [] && second[0] == b && Linked(second, others[..]) && Distinct(second)
    requires forall k: nat :: k < |first| ==> first[k] < SYMBOLS && used[first[k]]
    requires forall k: nat :: k < |second| ==> second[k] < SYMBOLS && used[second[k]]
    requires forall x :: x in first ==> x !in second
    modifies codesize, others
    ensures last == first[|first| - 1] && others[..] == old(others[..])[last := b]
    ensures forall x ::
              0 <= x < SYMBOLS ==> codesize[x] == old(codesize[x]) + (if x in first || x in second then 1 else 0)
    ensures TotalWeight(used, codesize[..], SYMBOLS) == old(TotalWeight(used, codesize[..], SYMBOLS)) -
              (BranchWeight(first, old(codesize[..]), |first|) + BranchWeight(second, old(codesize[..]),
                |second|)) / 2.0
    ensures Cost(counts, codesize[..], SYMBOLS) == old(Cost(counts, codesize[..], SYMBOLS)) +
              BranchCount(first, counts, |first|) + BranchCount(second, counts, |second|)
  {
    ghost var cs, ls := codesize[..], others[..];
    last := Lengthen(codesize, others, a, first, used, counts);
    RelinkedSecond(second, ls, last, b);
    ghost var cs1 := codesize[..];
    assert first[..|first|] == first && second[..|second|] == second;
    BranchSame(second, cs, cs1, |second|);
    others[last] := b;
    assert others[..] == ls[last := b];
    var end := Lengthen(codesize, others, b, second, used, counts);
  }

  /** Merge the trees headed by `a` and `b`. */
  method MergeTwo(freq: array<nat>, codesize: array<nat>, others: array<int>, a: nat, b: nat, ghost f: Forest,
      ghost used: seq<bool>, ghost counts: seq<nat>)
    returns (ghost g: Forest)
    requires freq.Length == codesize.Length == others.Length == |counts| == SYMBOLS && freq != codesize
    requires Merging(f, used, freq[..], codesize[..], others[..]) && TwoLeast(freq[..], a, b)
    requires HeadCount(f.branch[a], counts, freq[a]) && HeadCount(f.branch[b], counts, freq[b])
    modifies freq, codesize, others
    ensures g == Merged(f, a, b) && Merging(g, used, freq[..], codesize[..], others[..])
    ensures Cost(counts, codesize[..], SYMBOLS) == old(Cost(counts, codesize[..], SYMBOLS)) + old(freq[a]) +
              old(freq[b])
    ensures freq[..] == MergedFreq(old(freq[..]), a, b)
    ensures Live(freq[..], SYMBOLS) == old(Live(freq[..], SYMBOLS)) - 1
    ensures OneMerge(f.owner, g.owner, old(freq[..]), freq[..], old(codesize[..]), codesize[..], used, a, b)
  {
    ghost var fr, cs, ls := freq[..], codesize[..], others[..];
    MergeReady(f, used, fr, cs, ls, a, b);
    freq[a] := freq[a] + freq[b];
    freq[b] := 0;
    assert freq[..] == MergedFreq(fr, a, b);
    BranchesDisjoint(f, used, a, b);
    var last := LengthenBoth(codesize, others, a, b, f.branch[a], f.branch[b], used, counts);
    LinkBranches(f, used, ls, a, b, last);
    g := Merged(f, a, b);
    MergeDone(f, used, fr, cs, codesize[..], ls, a, b, last);
    MergeIsOne(f, used, fr, cs, codesize[..], a, b);
  }

  lemma MergeIsOne(f: Forest, used: seq<bool>, fr: seq<nat>, cs: seq<nat>, cs2: seq<nat>, a: nat, b: nat)
    requires ForestOk(f, used) && |fr| == |cs| == |cs2| == SYMBOLS && a < SYMBOLS && b < SYMBOLS && a != b
    requires forall x :: 0 <= x < SYMBOLS ==> cs2[x] == cs[x] + (if x in f.branch[a] || x in f.branch[b] then 1 else 0)
    ensures OneMerge(f.owner, Merged(f, a, b).owner, fr, MergedFreq(fr, a, b), cs, cs2, used, a, b)
  {
    BranchMembers(f, used, a);
    BranchMembers(f, used, b);
    forall s: nat | s < SYMBOLS && used[s]
      ensures cs2[s] == if f.owner[s] == a || f.owner[s] == b then cs[s] + 1 else cs[s]
    {
      assert Located(f, used, s);
    }
  }

  lemma MergeReady(f: Forest, used: seq<bool>, fr: seq<nat>, cs: seq<nat>, ls: seq<int>, a: nat, b: nat)
    requires Merging(f, used, fr, cs, ls) && a < SYMBOLS && b < SYMBOLS && a != b && fr[a] > 0 && fr[b] > 0
    ensures f.branch[a] != [] && f.branch[a][0] == a && Linked(f.branch[a], ls) && Distinct(f.branch[a])
    ensures f.branch[b] != [] && f.branch[b][0] == b && Linked(f.branch[b], ls) && Distinct(f.branch[b])
    ensures forall k: nat :: k < |f.branch[a]| ==> f.branch[a][k] < SYMBOLS && used[f.branch[a][k]]
    ensures forall k: nat :: k < |f.branch[b]| ==> f.branch[b][k] < SYMBOLS && used[f.branch[b][k]]
    ensures Live(MergedFreq(fr, a, b), SYMBOLS) == Live(fr, SYMBOLS) - 1
  {
    LiveUpdate(fr, SYMBOLS, a, fr[a] + fr[b]);
    LiveUpdate(fr[a := fr[a] + fr[b]], SYMBOLS, b, 0);
    BranchDistinct(f, used, a);
    BranchDistinct(f, used, b);
    BranchMembers(f, used, a);
    BranchMembers(f, used, b);
  }

  lemma MergeDone(f: Forest, used: seq<bool>, fr: seq<nat>, cs: seq<nat>, cs2: seq<nat>, ls: seq<int>, a: nat,
      b: nat, last: nat)
    requires Merging(f, used, fr, cs, ls) && a < SYMBOLS && b < SYMBOLS && a != b && fr[a] > 0 && fr[b] > 0
    requires |cs2| == SYMBOLS && last == f.branch[a][|f.branch[a]| - 1] < SYMBOLS
    requires forall x :: 0 <= x < SYMBOLS ==> cs2[x] == cs[x] + (if x in f.branch[a] || x in f.branch[b] then 1 else 0)
    requires (forall k: nat :: k < |f.branch[a]| ==> f.branch[a][k] < SYMBOLS) &&
             (forall k: nat :: k < |f.branch[b]| ==> f.branch[b][k] < SYMBOLS) &&
             TotalWeight(used, cs2, SYMBOLS) == TotalWeight(used, cs, SYMBOLS) -
               (BranchWeight(f.branch[a], cs, |f.branch[a]|) + BranchWeight(f.branch[b], cs, |f.branch[b]|)) / 2.0
    ensures Merging(Merged(f, a, b), used, MergedFreq(fr, a, b), cs2, ls[last := b])
  {
    MergeReady(f, used, fr, cs, ls, a, b);
    MergedOk(f, used, a, b);
    LinkBranches(f, used, ls, a, b, last);
    BranchMembers(f, used, a);
    BranchMembers(f, used, b);
    MergeTrees(f, used, cs, cs2, a, b);
  }

  lemma {:induction false} BranchCountJoined(a: seq<nat>, b: seq<nat>, counts: seq<nat>, n: nat)
    requires n <= |b| && (forall k :: 0 <= k < |a| ==> a[k] < |counts|) && forall k :: 0 <= k < |b| ==> b[k] < |counts|
    ensures forall k :: 0 <= k < |a + b| ==> (a + b)[k] < |counts|
    ensures BranchCount(a + b, counts, |a| + n) == BranchCount(a, counts, |a|) + BranchCount(b, counts, n)
  {
    if n == 0 { BranchCountPrefix(a, b, counts, |a|); } else { BranchCountJoined(a, b, counts, n - 1); }
  }

  lemma {:induction false} BranchCountPrefix(a: seq<nat>, b: seq<nat>, counts: seq<nat>, n: nat)
    requires n <= |a| && (forall k :: 0 <= k < |a| ==> a[k] < |counts|) && forall k :: 0 <= k < |b| ==> b[k] < |counts|
    ensures BranchCount(a + b, counts, n) == BranchCount(a, counts, n)
  {
    if n > 0 { BranchCountPrefix(a, b, counts, n - 1); }
  }

  /** Merging the two least frequent trees loses nothing. */
  lemma NothingLostStep(f: Forest, used: seq<bool>, counts: seq<nat>, fr: seq<nat>, cs: seq<nat>, cs2: seq<nat>,
      a: nat, b: nat)
    requires ForestOk(f, used) && NothingLost(f, counts, fr, cs) && TwoLeast(fr, a, b) && |cs2| == SYMBOLS
    requires f.branch[a] != [] && f.branch[b] != []
    requires Cost(counts, cs2, SYMBOLS) == Cost(counts, cs, SYMBOLS) + fr[a] + fr[b]
    ensures NothingLost(Merged(f, a, b), counts, MergedFreq(fr, a, b), cs2)
  {
    BranchCountJoined(f.branch[a], f.branch[b], counts, |f.branch[b]|);
    forall h: nat | h < SYMBOLS
      ensures HeadCount(Merged(f, a, b).branch[h], counts, MergedFreq(fr, a, b)[h])
    {
      assert HeadCount(f.branch[h], counts, fr[h]) && HeadCount(f.branch[a], counts, fr[a]) &&
             HeadCount(f.branch[b], counts, fr[b]);
    }
    forall ls | Feasible(counts, ls)
      ensures Matched(counts, MergedFreq(fr, a, b), cs2, ls)
    {
      assert Matched(counts, fr, cs, ls);
      var k :| Feasible(fr, k) && Cost(counts, cs, SYMBOLS) + Cost(fr, k, SYMBOLS) <= Cost(counts, ls, SYMBOLS);
      var k' := MergeGains(fr, k, a, b);
    }
  }

  lemma BranchMembers(f: Forest, used: seq<bool>, h: nat)
    requires ForestOk(f, used) && h < SYMBOLS
    ensures forall k: nat :: k < |f.branch[h]| ==> f.branch[h][k] < SYMBOLS && used[f.branch[h][k]]
    ensures forall x :: x in f.branch[h] ==> x < SYMBOLS && used[x] && f.owner[x] == h
  {
    forall k: nat | k < |f.branch[h]|
      ensures f.branch[h][k] < SYMBOLS && used[f.branch[h][k]] && f.owner[f.branch[h][k]] == h
    {
      assert Listed(f, used, h, k);
    }
  }

  lemma MergeTrees(f: Forest, used: seq<bool>, cs: seq<nat>, cs': seq<nat>, a: nat, b: nat)
    requires ForestOk(f, used) && |cs| == |cs'| == SYMBOLS && a < SYMBOLS && b < SYMBOLS && a != b
    requires f.branch[a] != [] && f.branch[b] != []
    requires forall h: nat :: h < SYMBOLS && f.branch[h] != [] ==> CompleteTree(f.branch[h], cs)
    requires forall x :: 0 <= x < SYMBOLS ==> cs'[x] == cs[x] + (if x in f.branch[a] || x in f.branch[b] then 1 else 0)
    ensures forall h: nat ::
              h < SYMBOLS && Merged(f, a, b).branch[h] != [] ==> CompleteTree(Merged(f, a, b).branch[h], cs')
  {
    var g := Merged(f, a, b);
    BranchMembers(f, used, a);
    BranchMembers(f, used, b);
    forall h: nat | h < SYMBOLS && g.branch[h] != []
      ensures CompleteTree(g.branch[h], cs')
    {
      if h == a {
        TreesJoin(f.branch[a], f.branch[b], cs, cs');
      } else {
        BranchMembers(f, used, h);
        TreeKept(f.branch[h], cs, cs');
      }
    }
  }

  // ---- all merges

  ghost function Singles(used: seq<bool>): Forest
    requires |used| == SYMBOLS
  {
    Forest(seq(SYMBOLS, x requires 0 <= x < SYMBOLS => if used[x] then [x] else []), seq(SYMBOLS, x => x),
        seq(SYMBOLS, _ => 0))
  }

  lemma {:induction false} WeightOfSingles(used: seq<bool>, freq: seq<nat>, cs: seq<nat>, n: nat)
    requires n <= |used| == |freq| == |cs| && forall x :: 0 <= x < |used| ==> cs[x] == 0 && (used[x] <==> freq[x] > 0)
    ensures TotalWeight(used, cs, n) == Live(freq, n) as real
  {
    if n > 0 { WeightOfSingles(used, freq, cs, n - 1); }
  }

  lemma StartMerging(used: seq<bool>, freq: seq<nat>, cs: seq<nat>, others: seq<int>)
    requires |used| == |freq| == |cs| == |others| == SYMBOLS
    requires forall x :: 0 <= x < SYMBOLS ==> cs[x] == 0 && others[x] == -1 && (used[x] <==> freq[x] > 0)
    ensures Merging(Singles(used), used, freq, cs, others)
  {
    WeightOfSingles(used, freq, cs, SYMBOLS);
    var f := Singles(used);
    forall h: nat | h < SYMBOLS && f.branch[h] != []
      ensures CompleteTree(f.branch[h], cs)
    {
      assert f.branch[h] == [h];
    }
  }

  /** When the second search fails there is one tree left. */
  lemma OneTreeLeft(freq: seq<nat>, c1: int)
    requires |freq| == SYMBOLS && Sum(freq, SYMBOLS) <= LARGEST + 1 && Live(freq, SYMBOLS) >= 1 && -1 <= c1 < SYMBOLS
    requires c1 == -1 ==> forall i :: 0 <= i < SYMBOLS ==> freq[i] == 0 || freq[i] > LARGEST
    requires c1 >= 0 ==> freq[c1] > 0
    requires forall i :: 0 <= i < SYMBOLS && i != c1 ==> freq[i] == 0 || freq[i] > LARGEST
    ensures exists h: nat :: OnlyTree(freq, h)
    ensures Live(freq, SYMBOLS) == 1
  {
    var h: nat := if c1 >= 0 then c1 else SomeTree(freq, SYMBOLS);
    forall i | 0 <= i < SYMBOLS && i != h
      ensures freq[i] == 0
    {
      if freq[i] > 0 { SumOfTwo(freq, SYMBOLS, if i < h then i else h, if i < h then h else i); }
    }
    LiveOne(freq, SYMBOLS, h);
    assert OnlyTree(freq, h);
  }

  predicate OnlyTree(freq: seq<nat>, h: nat) {
    h < |freq| && freq[h] > 0 && forall i :: 0 <= i < |freq| && i != h ==> freq[i] == 0
  }

  function SomeTree(freq: seq<nat>, n: nat): (h: nat)
    requires n <= |freq| && Live(freq, n) >= 1
    ensures h < n && freq[h] > 0
  {
    if freq[n - 1] > 0 then n - 1 else SomeTree(freq, n - 1)
  }

  /** With one tree left, every symbol in use is on its branch. */
  lemma AllOnOne(f: Forest, used: seq<bool>, freq: seq<nat>, cs: seq<nat>, others: seq<int>, h: nat, y: nat, z: nat)
    requires Merging(f, used, freq, cs, others) && OnlyTree(freq, h)
    requires y < SYMBOLS && z < SYMBOLS && y != z && used[y] && used[z]
    ensures forall x :: 0 <= x < SYMBOLS && used[x] ==> cs[x] >= 1
  {
    assert Located(f, used, y) && Located(f, used, z);
    assert f.owner[y] == h && f.owner[z] == h;
    assert |f.branch[h]| >= 2;
    assert CompleteTree(f.branch[h], cs);
    forall x | 0 <= x < SYMBOLS && used[x]
      ensures cs[x] >= 1
    {
      assert Located(f, used, x);
      assert f.owner[x] == h;
    }
  }

  /** Code lengths that fill the code space exactly: all symbols in use, and no others, have one. */
  ghost predicate CompleteCode(used: seq<bool>, cs: seq<nat>) {
    |used| == |cs| == SYMBOLS && TotalWeight(used, cs, SYMBOLS) == 1.0 &&
    forall x: nat :: x < SYMBOLS ==> (used[x] <==> cs[x] >= 1)
  }

  /** A single tree is left. */
  ghost predicate OneLeft(freq: seq<nat>)
    requires |freq| == SYMBOLS
  {
    Live(freq, SYMBOLS) == 1 && exists h: nat :: OnlyTree(freq, h)
  }

  /** One time through the loop: merge the two smallest trees, or stop if there is only one. */
  method MergeRound(freq: array<nat>, codesize: array<nat>, others: array<int>, ghost used: seq<bool>,
      ghost f: Forest, ghost counts: seq<nat>, ghost g: Leader)
    returns (done: bool, ghost f': Forest, ghost g': Leader)
    requires freq.Length == codesize.Length == others.Length == |used| == |counts| == SYMBOLS && freq != codesize
    requires Merging(f, used, freq[..], codesize[..], others[..]) && NothingLost(f, counts, freq[..], codesize[..])
    requires Sum(freq[..], SYMBOLS) <= LARGEST + 1 && Live(freq[..], SYMBOLS) >= 1
    modifies freq, codesize, others
    ensures Merging(f', used, freq[..], codesize[..], others[..]) && NothingLost(f', counts, freq[..], codesize[..])
    ensures Sum(freq[..], SYMBOLS) <= LARGEST + 1 && Live(freq[..], SYMBOLS) >= 1
    ensures if done then OneLeft(freq[..]) else Live(freq[..], SYMBOLS) < old(Live(freq[..], SYMBOLS))
    ensures old(Leading(f.owner, used, freq[..], codesize[..], g)) ==>
              Leading(f'.owner, used, freq[..], codesize[..], g')
  {
    hide ForestOk, TotalWeight, Linked, Leading;
    f', g' := f, g;
    var c1 := FindSmallest(freq, -1);
    var c2 := FindSmallest(freq, c1);
    done := c2 < 0;
    if done {
      OneTreeLeft(freq[..], c1);
      return;
    }
    ghost var fr, cs := freq[..], codesize[..];
    MergedSum(fr, c1, c2);
    f' := MergeTwo(freq, codesize, others, c1, c2, f, used, counts);
    NothingLostStep(f, used, counts, fr, cs, codesize[..], c1, c2);
    g' := Next(g, fr, c1, c2);
    if Leading(f.owner, used, fr, cs, g) {
      StillLeading(f.owner, f'.owner, used, fr, freq[..], cs, codesize[..], g, c1, c2);
    }
  }

  /** Huffman's algorithm. */
  method MergeAll(freq: array<nat>, codesize: array<nat>, others: array<int>, ghost used: seq<bool>, ghost y: nat)
    requires used == Mask(freq[..])
    requires freq.Length == codesize.Length == others.Length == |used| == SYMBOLS && freq != codesize
    requires forall x :: 0 <= x < SYMBOLS ==> codesize[x] == 0 && others[x] == -1 && (used[x] <==> freq[x] > 0)
    requires y < PSEUDO && used[y] && used[PSEUDO] && Sum(freq[..], SYMBOLS) <= LARGEST + 1
    modifies freq, codesize, others
    ensures CompleteCode(used, codesize[..]) && Optimal(old(freq[..]), codesize[..])
    ensures old(freq[PSEUDO]) == 1 ==> PseudoLongest(codesize[..])
  {
    hide CompleteCode, Optimal, NothingLost, Mask, Merging, Sum, Live, OneLeft, Leading;
    ghost var counts := freq[..];
    ghost var f := Singles(used);
    StartMerging(used, freq[..], codesize[..], others[..]);
    SomeLive(freq[..], PSEUDO);
    NothingLostYet(counts, codesize[..]);
    ghost var g := Leader(PSEUDO, 0, 0, 0, 0, {});
    if counts[PSEUDO] == 1 { LeadingFirst(used, counts, codesize[..]); }
    var done := false;
    while !done
      invariant Merging(f, used, freq[..], codesize[..], others[..]) && NothingLost(f, counts, freq[..], codesize[..])
      invariant Sum(freq[..], SYMBOLS) <= LARGEST + 1 && Live(freq[..], SYMBOLS) >= 1 && (done ==> OneLeft(freq[..]))
      invariant counts[PSEUDO] == 1 ==> Leading(f.owner, used, freq[..], codesize[..], g)
      decreases !done, Live(freq[..], SYMBOLS)
    {
      done, f, g := MergeRound(freq, codesize, others, used, f, counts, g);
    }
    FinishMerging(f, used, freq[..], codesize[..], others[..], y, PSEUDO);
    NothingCheaper(f, counts, freq[..], codesize[..]);
    if counts[PSEUDO] == 1 { LeaderDeepest(f, used, freq[..], codesize[..], others[..], g); }
  }

  /** No code is longer than that of the pseudo-symbol. */
  predicate PseudoLongest(cs: seq<nat>) {
    |cs| == SYMBOLS && forall x :: 0 <= x < SYMBOLS ==> cs[x] <= cs[PSEUDO]
  }

  lemma LeaderDeepest(f: Forest, used: seq<bool>, freq: seq<nat>, cs: seq<nat>, others: seq<int>, g: Leader)
    requires Merging(f, used, freq, cs, others) && OneLeft(freq) && Leading(f.owner, used, freq, cs, g)
    ensures PseudoLongest(cs)
  {
    forall x: nat | x < SYMBOLS && used[x]
      ensures cs[x] <= cs[PSEUDO]
    {
      assert DeepEnough(f.owner[x], cs[x], g);
    }
  }

  lemma {:induction false} NoCost(counts: seq<nat>, cs: seq<nat>, n: nat)
    requires n <= |counts| == |cs| && forall x :: 0 <= x < |cs| ==> cs[x] == 0
    ensures Cost(counts, cs, n) == 0
  {
    if n > 0 { NoCost(counts, cs, n - 1); }
  }

  lemma NothingLostYet(counts: seq<nat>, cs: seq<nat>)
    requires |counts| == |cs| == SYMBOLS && forall x :: 0 <= x < SYMBOLS ==> cs[x] == 0
    ensures NothingLost(Singles(Mask(counts)), counts, counts, cs)
  {
    NoCost(counts, cs, SYMBOLS);
    var f := Singles(Mask(counts));
    forall h: nat | h < SYMBOLS
      ensures HeadCount(f.branch[h], counts, counts[h])
    {
      if counts[h] > 0 { assert f.branch[h] == [h] && BranchCount([h], counts, 0) == 0; }
    }
    forall ls | Feasible(counts, ls)
      ensures Matched(counts, counts, cs, ls)
    {
    }
  }

  lemma NothingCheaper(f: Forest, counts: seq<nat>, freq: seq<nat>, cs: seq<nat>)
    requires NothingLost(f, counts, freq, cs) && CompleteCode(Mask(counts), cs)
    ensures Optimal(counts, cs)
  {
    forall ls | Feasible(counts, ls)
      ensures Cost(counts, cs, SYMBOLS) <= Cost(counts, ls, SYMBOLS)
    {
      assert Matched(counts, freq, cs, ls);
    }
  }

  lemma SomeLive(freq: seq<nat>, x: nat)
    requires |freq| == SYMBOLS && x < SYMBOLS && freq[x] > 0
    ensures Live(freq, SYMBOLS) >= 1
  {
    LiveUpdate(freq, SYMBOLS, x, 0);
  }

  lemma MergedSum(freq: seq<nat>, a: nat, b: nat)
    requires |freq| == SYMBOLS && a < SYMBOLS && b < SYMBOLS && a != b && freq[a] > 0
    ensures Sum(MergedFreq(freq, a, b), SYMBOLS) == Sum(freq, SYMBOLS)
    ensures Live(MergedFreq(freq, a, b), SYMBOLS) >= 1
  {
    SumUpdate(freq, SYMBOLS, a, freq[a] + freq[b]);
    SumUpdate(freq[a := freq[a] + freq[b]], SYMBOLS, b, 0);
    SomeLive(freq[a := freq[a] + freq[b]][b := 0], a);
  }

  lemma FinishMerging(f: Forest, used: seq<bool>, freq: seq<nat>, cs: seq<nat>, others: seq<int>, y: nat, z: nat)
    requires Merging(f, used, freq, cs, others) && OneLeft(freq)
    requires y < SYMBOLS && z < SYMBOLS && y != z && used[y] && used[z]
    ensures CompleteCode(used, cs)
  {
    var h: nat :| OnlyTree(freq, h);
    AllOnOne(f, used, freq, cs, others, h, y, z);
  }
}
