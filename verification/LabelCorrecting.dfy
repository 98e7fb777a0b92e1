/**
 * What the FIFO shortest-path loop (benchmark/source/dijkstra) keeps true: labels are costs of
 * simple paths, and every labelled node is settled or has its label in the queue, although the
 * queue may also hold outdated labels.
 */
module LabelCorrecting {
  const NUM_NODES: nat := 100
  const NONE: int := 9999

  /** Adjacency matrix; NONE stands for "no edge". */
  type Graph = m: seq<seq<int>> | |m| == NUM_NODES && forall i :: 0 <= i < |m| ==> |m[i]| == NUM_NODES
    witness seq(NUM_NODES, _ => seq(NUM_NODES, _ => NONE))

  predicate Edge(g: Graph, u: nat, v: nat) {
    u < NUM_NODES && v < NUM_NODES && g[u][v] != NONE
  }

  // ---- paths

  predicate Path(g: Graph, s: nat, p: seq<nat>) {
    p != [] && p[0] == s && (forall k :: 0 <= k < |p| ==> p[k] < NUM_NODES) &&
    forall k :: 0 <= k < |p| - 1 ==> Edge(g, p[k], p[k + 1])
  }

  predicate Distinct(p: seq<nat>) {
    forall j, k :: 0 <= j < k < |p| ==> p[j] != p[k]
  }

  function Last(p: seq<nat>): nat
    requires p != []
  {
    p[|p| - 1]
  }

  function Cost(g: Graph, p: seq<nat>): int
    requires forall k :: 0 <= k < |p| ==> p[k] < NUM_NODES
  {
    if |p| <= 1 then 0 else Cost(g, p[..|p| - 1]) + g[p[|p| - 2]][p[|p| - 1]]
  }

  predicate NonNegative(g: Graph) {
    forall u, v :: 0 <= u < NUM_NODES && 0 <= v < NUM_NODES ==> g[u][v] >= 0
  }

  /** What the loop relies on: no negative costs, and no simple path as costly as NONE. */
  ghost predicate Tractable(g: Graph, s: nat) {
    s < NUM_NODES && NonNegative(g) && forall p :: Path(g, s, p) && Distinct(p) ==> Cost(g, p) < NONE
  }

  lemma CostExtend(g: Graph, s: nat, p: seq<nat>, v: nat)
    requires Path(g, s, p) && Edge(g, Last(p), v)
    ensures Path(g, s, p + [v]) && Cost(g, p + [v]) == Cost(g, p) + g[Last(p)][v]
  {
    assert (p + [v])[..|p|] == p;
  }

  lemma {:induction false} PrefixCheaper(g: Graph, s: nat, p: seq<nat>, k: nat)
    requires NonNegative(g) && Path(g, s, p) && 1 <= k <= |p|
    ensures Path(g, s, p[..k]) && 0 <= Cost(g, p[..k]) <= Cost(g, p)
    decreases |p|
  {
    if k == |p| {
      assert p[..k] == p;
      if k > 1 { PrefixCheaper(g, s, p[..k - 1], k - 1); }
    } else {
      var front := p[..|p| - 1];
      PrefixCheaper(g, s, front, k);
      assert front[..k] == p[..k];
    }
  }

  // ---- labels and queue items

  datatype Item = Item(node: nat, dist: int, prev: int)

  /** `p` is a simple path to `u` that costs `d`, none of whose nodes is labelled higher than the
      path makes it. */
  predicate Witness(g: Graph, s: nat, dist: seq<int>, u: nat, d: int, p: seq<nat>)
    requires |dist| == NUM_NODES
  {
    Path(g, s, p) && Distinct(p) && Last(p) == u && Cost(g, p) == d && Dominated(g, dist, p)
  }

  predicate Dominated(g: Graph, dist: seq<int>, p: seq<nat>)
    requires |dist| == NUM_NODES && forall k :: 0 <= k < |p| ==> p[k] < NUM_NODES
  {
    forall k :: 0 <= k < |p| ==> DominatedAt(g, dist, p, k)
  }

  predicate DominatedAt(g: Graph, dist: seq<int>, p: seq<nat>, k: nat)
    requires |dist| == NUM_NODES && k < |p| && forall k :: 0 <= k < |p| ==> p[k] < NUM_NODES
  {
    dist[p[k]] != NONE && dist[p[k]] <= Cost(g, p[..k + 1])
  }

  /** All edges of `u` to nodes below `n` are settled for label `d`. */
  predicate SettledTo(g: Graph, dist: seq<int>, u: nat, d: int, n: nat)
    requires |dist| == NUM_NODES && n <= NUM_NODES
  {
    forall v :: 0 <= v < n && Edge(g, u, v) ==> dist[v] != NONE && dist[v] <= d + g[u][v]
  }

  predicate Pending(queue: seq<Item>, u: nat, d: int) {
    exists k :: 0 <= k < |queue| && queue[k].node == u && queue[k].dist == d
  }

  /** Node `u` will be looked at again, or needs not, or is the current node `cur`, the edges of
      which have been looked at up to `n`. */
  predicate Covered(g: Graph, dist: seq<int>, queue: seq<Item>, u: nat, cur: Item, n: nat)
    requires |dist| == NUM_NODES && u < NUM_NODES && n <= NUM_NODES
  {
    dist[u] != NONE ==>
      Pending(queue, u, dist[u]) || SettledTo(g, dist, u, dist[u], NUM_NODES) ||
      (u == cur.node && dist[u] == cur.dist && SettledTo(g, dist, u, dist[u], n))
  }

  /** Ghost paths of the labels and of the queue items. */
  datatype Ghosts = Ghosts(labels: seq<seq<nat>>, items: seq<seq<nat>>)

  ghost predicate LabelOk(g: Graph, s: nat, dist: seq<int>, gh: Ghosts, u: nat)
    requires |dist| == |gh.labels| == NUM_NODES && u < NUM_NODES
  {
    dist[u] != NONE ==> Witness(g, s, dist, u, dist[u], gh.labels[u])
  }

  ghost predicate ItemOk(g: Graph, s: nat, dist: seq<int>, queue: seq<Item>, gh: Ghosts, k: nat)
    requires |dist| == NUM_NODES && k < |queue| == |gh.items|
  {
    queue[k].node < NUM_NODES && Witness(g, s, dist, queue[k].node, queue[k].dist, gh.items[k])
  }

  /** The loop invariant, with the edges of `cur` looked at up to `n`. */
  ghost predicate Inv(g: Graph, s: nat, dist: seq<int>, queue: seq<Item>, gh: Ghosts, cur: Item, n: nat) {
    Tractable(g, s) && |dist| == |gh.labels| == NUM_NODES && |gh.items| == |queue| && n <= NUM_NODES && dist[s] == 0 &&
    (forall u: nat :: u < NUM_NODES ==> LabelOk(g, s, dist, gh, u)) &&
    (forall k: nat :: k < |queue| ==> ItemOk(g, s, dist, queue, gh, k)) &&
    (forall u: nat :: u < NUM_NODES ==> Covered(g, dist, queue, u, cur, n))
  }

  /** Labels lie between zero and NONE. */
  lemma LabelBound(g: Graph, s: nat, dist: seq<int>, u: nat, d: int, p: seq<nat>)
    requires Tractable(g, s) && |dist| == NUM_NODES && Witness(g, s, dist, u, d, p)
    ensures 0 <= d < NONE
  {
    PrefixCheaper(g, s, p, |p|);
  }

  // ---- relaxing an edge

  /** The new path to `v` is simple: a node already on it is labelled too low to be relaxed. */
  lemma NewPath(g: Graph, s: nat, dist: seq<int>, u: nat, d: int, p: seq<nat>, v: nat)
    requires Tractable(g, s) && |dist| == NUM_NODES && Witness(g, s, dist, u, d, p) && Edge(g, u, v)
    requires dist[v] == NONE || dist[v] > d + g[u][v]
    ensures Path(g, s, p + [v]) && Distinct(p + [v]) && Cost(g, p + [v]) == d + g[u][v] < NONE && v !in p
  {
    CostExtend(g, s, p, v);
    if v in p {
      var k: nat :| k < |p| && p[k] == v;
      assert DominatedAt(g, dist, p, k);
      PrefixCheaper(g, s, p, k + 1);
    }
  }

  /** Lowering one label keeps every path dominated. */
  lemma StillDominated(g: Graph, dist: seq<int>, p: seq<nat>, v: nat, d: int)
    requires |dist| == NUM_NODES && v < NUM_NODES && d != NONE && (dist[v] == NONE || d <= dist[v])
    requires (forall k :: 0 <= k < |p| ==> p[k] < NUM_NODES) && Dominated(g, dist, p)
    ensures Dominated(g, dist[v := d], p)
  {
    var dist' := dist[v := d];
    forall k | 0 <= k < |p|
      ensures DominatedAt(g, dist', p, k)
    {
      assert DominatedAt(g, dist, p, k);
    }
  }

  lemma NewWitness(g: Graph, s: nat, dist: seq<int>, u: nat, d: int, p: seq<nat>, v: nat)
    requires Tractable(g, s) && |dist| == NUM_NODES && Witness(g, s, dist, u, d, p) && Edge(g, u, v)
    requires dist[v] == NONE || dist[v] > d + g[u][v]
    ensures Witness(g, s, dist[v := d + g[u][v]], v, d + g[u][v], p + [v])
  {
    NewPath(g, s, dist, u, d, p, v);
    var dist' := dist[v := d + g[u][v]];
    var q := p + [v];
    forall k | 0 <= k < |q|
      ensures DominatedAt(g, dist', q, k)
    {
      if k < |p| {
        assert DominatedAt(g, dist, p, k);
        assert q[..k + 1] == p[..k + 1];
      } else {
        assert q[..k + 1] == q;
      }
    }
  }

  /** Relaxing the edge from the current item to `v`: label, queue and ghost paths grow together. */
  lemma Relax(g: Graph, s: nat, dist: seq<int>, queue: seq<Item>, gh: Ghosts, cur: Item, p: seq<nat>, v: nat)
    requires Inv(g, s, dist, queue, gh, cur, v) && v < NUM_NODES && cur.node < NUM_NODES
    requires Witness(g, s, dist, cur.node, cur.dist, p)
    requires Edge(g, cur.node, v) && (dist[v] == NONE || dist[v] > cur.dist + g[cur.node][v])
    ensures var d := cur.dist + g[cur.node][v];
            0 <= d < NONE && Witness(g, s, dist[v := d], cur.node, cur.dist, p) &&
            Inv(g, s, dist[v := d], queue + [Item(v, d, cur.node)],
            Ghosts(gh.labels[v := p + [v]], gh.items + [p + [v]]), cur, v + 1)
  {
    hide Witness, LabelOk, ItemOk, Covered, Dominated, Path, Cost, Distinct, NonNegative;
    var d := cur.dist + g[cur.node][v];
    var dist', queue', gh' := dist[v := d], queue + [Item(v, d, cur.node)],
        Ghosts(gh.labels[v := p + [v]], gh.items + [p + [v]]);
    NewWitness(g, s, dist, cur.node, cur.dist, p, v);
    LabelBound(g, s, dist', v, d, p + [v]);
    WitnessKept(g, s, dist, cur.node, cur.dist, p, v, d);
    StartKept(g, s, dist, cur, p, v);
    forall u: nat | u < NUM_NODES
      ensures LabelOk(g, s, dist', gh', u)
    {
      LabelRelaxed(g, s, dist, gh, gh', v, d, p + [v], u);
    }
    forall k: nat | k < |queue'|
      ensures ItemOk(g, s, dist', queue', gh', k)
    {
      ItemRelaxed(g, s, dist, queue, queue', gh, gh', v, d, k);
    }
    var n := v + 1;
    forall u: nat | u < NUM_NODES
      ensures Covered(g, dist', queue', u, cur, n)
    {
      CoveredStep(g, dist, queue, u, cur, v);
    }
  }

  lemma WitnessKept(g: Graph, s: nat, dist: seq<int>, u: nat, e: int, p: seq<nat>, v: nat, d: int)
    requires |dist| == NUM_NODES && Witness(g, s, dist, u, e, p) && v < NUM_NODES && d != NONE &&
             (dist[v] == NONE || d <= dist[v])
    ensures Witness(g, s, dist[v := d], u, e, p)
  {
    StillDominated(g, dist, p, v, d);
  }

  lemma LabelRelaxed(g: Graph, s: nat, dist: seq<int>, gh: Ghosts, gh': Ghosts, v: nat, d: int, q: seq<nat>, u: nat)
    requires |dist| == |gh.labels| == NUM_NODES && u < NUM_NODES && v < NUM_NODES && LabelOk(g, s, dist, gh, u)
    requires gh'.labels == gh.labels[v := q] && Witness(g, s, dist[v := d], v, d, q) && d != NONE &&
             (dist[v] == NONE || d <= dist[v])
    ensures LabelOk(g, s, dist[v := d], gh', u)
  {
    hide Witness;
    if u != v && dist[u] != NONE { WitnessKept(g, s, dist, u, dist[u], gh.labels[u], v, d); }
  }

  lemma ItemRelaxed(g: Graph, s: nat, dist: seq<int>, queue: seq<Item>, queue': seq<Item>, gh: Ghosts, gh': Ghosts,
      v: nat, d: int, k: nat)
    requires |dist| == NUM_NODES && |queue| == |gh.items| && v < NUM_NODES && d != NONE &&
             (dist[v] == NONE || d <= dist[v])
    requires |queue'| == |gh'.items| == |queue| + 1 && queue'[..|queue|] == queue && gh'.items[..|queue|] == gh.items &&
             k < |queue'|
    requires if k < |queue| then ItemOk(g, s, dist, queue, gh, k)
             else queue'[k].node == v && Witness(g, s, dist[v := d], v, queue'[k].dist, gh'.items[k])
    ensures ItemOk(g, s, dist[v := d], queue', gh', k)
  {
    hide Witness;
    if k < |queue| {
      assert queue'[..|queue|][k] == queue[k] && gh'.items[..|queue|][k] == gh.items[k];
      WitnessKept(g, s, dist, queue[k].node, queue[k].dist, gh.items[k], v, d);
    }
  }

  /** The start is never relaxed. */
  lemma StartKept(g: Graph, s: nat, dist: seq<int>, cur: Item, p: seq<nat>, v: nat)
    requires Tractable(g, s) && |dist| == NUM_NODES && dist[s] == 0 && Witness(g, s, dist, cur.node, cur.dist, p)
    requires Edge(g, cur.node, v) && (dist[v] == NONE || dist[v] > cur.dist + g[cur.node][v])
    ensures v != s
  {
    LabelBound(g, s, dist, cur.node, cur.dist, p);
  }

  lemma CoveredStep(g: Graph, dist: seq<int>, queue: seq<Item>, u: nat, cur: Item, v: nat)
    requires |dist| == NUM_NODES && u < NUM_NODES && v < NUM_NODES && Covered(g, dist, queue, u, cur, v) &&
             cur.node < NUM_NODES
    requires Edge(g, cur.node, v) && (dist[v] == NONE || dist[v] > cur.dist + g[cur.node][v]) &&
             cur.dist + g[cur.node][v] != NONE
    ensures var d := cur.dist + g[cur.node][v];
            Covered(g, dist[v := d], queue + [Item(v, d, cur.node)], u, cur, v + 1)
  {
    var d := cur.dist + g[cur.node][v];
    var queue' := queue + [Item(v, d, cur.node)];
    if u == v {
      assert queue'[|queue|].node == v && queue'[|queue|].dist == d;
    } else if Pending(queue, u, dist[u]) {
      var k :| 0 <= k < |queue| && queue[k].node == u && queue[k].dist == dist[u];
      assert queue'[k] == queue[k];
    }
  }

  /** Passing over an edge that needs no relaxing. */
  lemma Skip(g: Graph, s: nat, dist: seq<int>, queue: seq<Item>, gh: Ghosts, cur: Item, v: nat)
    requires Inv(g, s, dist, queue, gh, cur, v) && v < NUM_NODES
    requires !Edge(g, cur.node, v) || (dist[v] != NONE && dist[v] <= cur.dist + g[cur.node][v])
    ensures Inv(g, s, dist, queue, gh, cur, v + 1)
  {
    var n := v + 1;
    forall u: nat | u < NUM_NODES
      ensures Covered(g, dist, queue, u, cur, n)
    {
      assert Covered(g, dist, queue, u, cur, v);
    }
  }

  /** Taking the first item off the queue makes it the current one. */
  lemma Take(g: Graph, s: nat, dist: seq<int>, queue: seq<Item>, gh: Ghosts, old_: Item)
    requires Inv(g, s, dist, queue, gh, old_, NUM_NODES) && queue != []
    ensures Inv(g, s, dist, queue[1..], Ghosts(gh.labels, gh.items[1..]), queue[0], 0)
    ensures queue[0].node < NUM_NODES && Witness(g, s, dist, queue[0].node, queue[0].dist, gh.items[0])
  {
    assert ItemOk(g, s, dist, queue, gh, 0);
    var rest, gh' := queue[1..], Ghosts(gh.labels, gh.items[1..]);
    forall u: nat | u < NUM_NODES
      ensures LabelOk(g, s, dist, gh', u)
    {
      assert LabelOk(g, s, dist, gh, u);
    }
    forall k: nat | k < |rest|
      ensures ItemOk(g, s, dist, rest, gh', k)
    {
      assert ItemOk(g, s, dist, queue, gh, k + 1);
    }
    forall u: nat | u < NUM_NODES
      ensures Covered(g, dist, rest, u, queue[0], 0)
    {
      assert Covered(g, dist, queue, u, old_, NUM_NODES);
      if Pending(queue, u, dist[u]) {
        var k :| 0 <= k < |queue| && queue[k].node == u && queue[k].dist == dist[u];
        if k > 0 { assert rest[k - 1] == queue[k]; }
      }
    }
  }

  // ---- the end

  /** With the queue empty, no path is cheaper than the label. */
  lemma {:induction false} NoneCheaper(g: Graph, s: nat, dist: seq<int>, gh: Ghosts, cur: Item, p: seq<nat>)
    requires Inv(g, s, dist, [], gh, cur, NUM_NODES) && Path(g, s, p)
    ensures dist[Last(p)] != NONE && dist[Last(p)] <= Cost(g, p)
    decreases |p|
  {
    if |p| > 1 {
      var q := p[..|p| - 1];
      NoneCheaper(g, s, dist, gh, cur, q);
      assert Covered(g, dist, [], Last(q), cur, NUM_NODES);
      assert Edge(g, p[|p| - 2], p[|p| - 1]);
    }
  }

  /** The label of a node is the least cost of any path to it; NONE means there is none. */
  ghost predicate Shortest(g: Graph, s: nat, dist: seq<int>, u: nat)
    requires |dist| == NUM_NODES && u < NUM_NODES
  {
    if dist[u] == NONE then forall p :: Path(g, s, p) ==> Last(p) != u
    else (exists p :: Path(g, s, p) && Last(p) == u && Cost(g, p) == dist[u]) &&
         forall p :: Path(g, s, p) && Last(p) == u ==> dist[u] <= Cost(g, p)
  }

  lemma AllShortest(g: Graph, s: nat, dist: seq<int>, gh: Ghosts, cur: Item)
    requires Inv(g, s, dist, [], gh, cur, NUM_NODES)
    ensures forall u: nat :: u < NUM_NODES ==> Shortest(g, s, dist, u)
  {
    forall u: nat | u < NUM_NODES
      ensures Shortest(g, s, dist, u)
    {
      assert LabelOk(g, s, dist, gh, u);
      forall p | Path(g, s, p) && Last(p) == u
        ensures dist[u] != NONE && dist[u] <= Cost(g, p)
      {
        NoneCheaper(g, s, dist, gh, cur, p);
      }
    }
  }
}
