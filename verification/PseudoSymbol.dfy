/**
 * Why the pseudo-symbol of jpeg_gen_optimal_table (jchuff.c; ITU-T T.81, K.2) ends in the category of the
 * longest codes: ties go to the larger symbol, so a tree made since the tree of the pseudo-symbol was last
 * merged never goes before it, and no tree that does go before it is as high.
 */
module PseudoSymbol {
  import opened CodeLengths

  /** The order in which trees are merged: by frequency, ties going to the larger symbol. */
  predicate Before(freq: seq<nat>, a: nat, b: nat)
    requires a < |freq| && b < |freq|
  {
    freq[a] < freq[b] || (freq[a] == freq[b] && a > b)
  }

  /** The tree that holds the pseudo-symbol: its head, how often it was merged, the frequencies of the two
      trees last merged in it, the head of the second, and the trees made since. */
  datatype Leader = Leader(head: nat, depth: nat, x: nat, y: nat, second: nat, young: set<nat>)

  /** How deep a symbol may be: below the pseudo-symbol unless its tree is young or the leader. */
  predicate DeepEnough(owner: nat, c: nat, g: Leader) {
    c <= g.depth && (owner != g.head && owner !in g.young && g.depth > 0 ==> c < g.depth)
  }

  /** A tree goes after one of frequency `y` and head `h`. */
  predicate After(freq: nat, tree: nat, y: nat, h: nat) {
    freq > y || (freq == y && tree < h)
  }

  ghost predicate Leading(owner: seq<nat>, used: seq<bool>, freq: seq<nat>, cs: seq<nat>, g: Leader) {
    |owner| == |used| == |freq| == |cs| == SYMBOLS && used[PSEUDO] && g.head == owner[PSEUDO] < SYMBOLS &&
    freq[g.head] > 0 && cs[PSEUDO] == g.depth &&
    (if g.depth == 0 then g.head == PSEUDO && freq[PSEUDO] == 1 && g.young == {}
     else freq[g.head] == g.x + g.y && 0 < g.x <= g.y && (g.x == g.y ==> g.head > g.second)) &&
    (forall s: nat :: s < SYMBOLS && used[s] ==> DeepEnough(owner[s], cs[s], g)) &&
    (g.depth > 0 ==>
      forall h: nat :: h < SYMBOLS && h != g.head && freq[h] > 0 ==> After(freq[h], h, g.y, g.second)) &&
    (forall h: nat :: h in g.young ==> h < SYMBOLS && h != g.head && After(freq[h], h, freq[g.head], g.head))
  }

  /** The first two trees in the order. */
  predicate FirstTwo(freq: seq<nat>, a: nat, b: nat) {
    |freq| == SYMBOLS && a < SYMBOLS && b < SYMBOLS && a != b && freq[a] > 0 && freq[b] > 0 &&
    (forall h: nat :: h < SYMBOLS && h != a && freq[h] > 0 ==> Before(freq, a, h)) &&
    (forall h: nat :: h < SYMBOLS && h != a && h != b && freq[h] > 0 ==> Before(freq, b, h))
  }

  /** What merging tree `b` into tree `a` does to owners, frequencies and lengths. */
  predicate OneMerge(owner: seq<nat>, owner': seq<nat>, freq: seq<nat>, freq': seq<nat>, cs: seq<nat>, cs': seq<nat>,
      used: seq<bool>, a: nat, b: nat)
  {
    |owner| == |owner'| == |freq| == |freq'| == |cs| == |cs'| == |used| == SYMBOLS && a < SYMBOLS && b < SYMBOLS &&
    a != b && freq' == freq[a := freq[a] + freq[b]][b := 0] &&
    forall s: nat :: s < SYMBOLS && used[s] ==>
      owner'[s] == (if owner[s] == b then a else owner[s]) &&
      cs'[s] == if owner[s] == a || owner[s] == b then cs[s] + 1 else cs[s]
  }

  ghost function Next(g: Leader, freq: seq<nat>, a: nat, b: nat): Leader
    requires a < |freq| && b < |freq|
  {
    if g.head == a || g.head == b then Leader(a, g.depth + 1, freq[a], freq[b], b, {})
    else g.(young := g.young + {a})
  }

  /** The pseudo-symbol is merged first of all. */
  lemma PseudoFirst(owner: seq<nat>, used: seq<bool>, freq: seq<nat>, cs: seq<nat>, g: Leader, a: nat, b: nat)
    requires Leading(owner, used, freq, cs, g) && FirstTwo(freq, a, b) && g.depth == 0
    ensures a == PSEUDO
  {
    assert !Before(freq, a, PSEUDO);
  }

  /** Trees that go before the leader are not young. */
  lemma OldFirst(owner: seq<nat>, used: seq<bool>, freq: seq<nat>, cs: seq<nat>, g: Leader, a: nat, b: nat)
    requires Leading(owner, used, freq, cs, g) && FirstTwo(freq, a, b) && g.head != a && g.head != b
    ensures a !in g.young && b !in g.young
  {
    assert Before(freq, a, g.head) && Before(freq, b, g.head);
  }

  /** One merge keeps the pseudo-symbol as deep as any other. */
  lemma StillLeading(owner: seq<nat>, owner': seq<nat>, used: seq<bool>, freq: seq<nat>, freq': seq<nat>, cs: seq<nat>,
      cs': seq<nat>, g: Leader, a: nat, b: nat)
    requires Leading(owner, used, freq, cs, g) && FirstTwo(freq, a, b) &&
             OneMerge(owner, owner', freq, freq', cs, cs', used, a, b)
    ensures Leading(owner', used, freq', cs', Next(g, freq, a, b))
  {
    if g.head == a || g.head == b {
      assert Before(freq, a, b);
      assert forall h: nat :: h < SYMBOLS && h != a && freq'[h] > 0 ==> h != b && Before(freq, b, h);
    } else {
      if g.depth == 0 { PseudoFirst(owner, used, freq, cs, g, a, b); }
      OldFirst(owner, used, freq, cs, g, a, b);
      YoungAfter(freq, g, a, b);
    }
  }

  /** A tree made of two others goes after the leader. */
  lemma YoungAfter(freq: seq<nat>, g: Leader, a: nat, b: nat)
    requires a < |freq| && b < |freq| && freq[a] > 0 && freq[b] > 0 && 0 < g.x <= g.y &&
             (g.x == g.y ==> g.head > g.second)
    requires After(freq[a], a, g.y, g.second) && After(freq[b], b, g.y, g.second)
    ensures After(freq[a] + freq[b], a, g.x + g.y, g.head) && After(freq[a] + freq[b], a, g.y, g.second)
  {
  }

  lemma LeadingFirst(used: seq<bool>, freq: seq<nat>, cs: seq<nat>)
    requires |used| == |freq| == |cs| == SYMBOLS && used[PSEUDO] && freq[PSEUDO] == 1 &&
             forall s :: 0 <= s < SYMBOLS ==> cs[s] == 0
    ensures Leading(seq(SYMBOLS, x => x), used, freq, cs, Leader(PSEUDO, 0, 0, 0, 0, {}))
  {
  }
}
