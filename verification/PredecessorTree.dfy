/**
 * The iPrev pointers of benchmark/source/dijkstra: they form a tree rooted at the start, also
 * with edges of cost zero and outdated queue items, so that print_path ends and prints a path.
 */
module PredecessorTree {
  import opened LabelCorrecting

  /** Position `j` of the branch to `x`: the pointer there leads one position back, and labels
      grow at least by the cost of the edge. */
  predicate BranchAt(g: Graph, dist: seq<int>, prev: seq<int>, tree: seq<seq<nat>>, x: nat, j: nat)
    requires |dist| == |prev| == |tree| == NUM_NODES && x < NUM_NODES && j < |tree[x]|
  {
    var y := tree[x][j];
    y < NUM_NODES && dist[y] != NONE && tree[y] == tree[x][..j + 1] &&
    if j == 0 then prev[y] == NONE
    else
      var w := tree[x][j - 1];
      prev[y] == w && Edge(g, w, y) && dist[w] + g[w][y] <= dist[y]
  }

  ghost predicate Branch(g: Graph, s: nat, dist: seq<int>, prev: seq<int>, tree: seq<seq<nat>>, x: nat)
    requires |dist| == |prev| == |tree| == NUM_NODES && x < NUM_NODES
  {
    if dist[x] == NONE then prev[x] == NONE
    else
      tree[x] != [] && tree[x][0] == s && Last(tree[x]) == x && Distinct(tree[x]) &&
      forall j: nat :: j < |tree[x]| ==> BranchAt(g, dist, prev, tree, x, j)
  }

  /** `tree[x]` is the branch from the start to `x` that the pointers describe. */
  ghost predicate TreeOk(g: Graph, s: nat, dist: seq<int>, prev: seq<int>, tree: seq<seq<nat>>) {
    |dist| == |prev| == |tree| == NUM_NODES && forall x: nat :: x < NUM_NODES ==> Branch(g, s, dist, prev, tree, x)
  }

  /** Labels do not fall along a branch. */
  lemma {:induction false} LabelsRise(g: Graph, s: nat, dist: seq<int>, prev: seq<int>, tree: seq<seq<nat>>, x: nat,
      j: nat, k: nat)
    requires NonNegative(g) && TreeOk(g, s, dist, prev, tree) && x < NUM_NODES && dist[x] != NONE && j <= k < |tree[x]|
    ensures tree[x][j] < NUM_NODES && tree[x][k] < NUM_NODES && dist[tree[x][j]] <= dist[tree[x][k]]
    decreases k - j
  {
    assert Branch(g, s, dist, prev, tree, x);
    assert BranchAt(g, dist, prev, tree, x, k);
    if j < k {
      assert BranchAt(g, dist, prev, tree, x, k - 1);
      LabelsRise(g, s, dist, prev, tree, x, j, k - 1);
    }
  }

  /** The branches after the edge from `u` to `v` has been relaxed: whatever hung below `v` hangs
      below the branch of `u` now. */
  ghost function Regrown(tree: seq<seq<nat>>, dist: seq<int>, u: nat, v: nat): (t: seq<seq<nat>>)
    requires |tree| == |dist| == NUM_NODES && u < NUM_NODES && v < NUM_NODES
    ensures |t| == NUM_NODES
  {
    seq(NUM_NODES, x requires 0 <= x < NUM_NODES => RegrownAt(tree, dist, u, v, x))
  }

  ghost function RegrownAt(tree: seq<seq<nat>>, dist: seq<int>, u: nat, v: nat, x: nat): seq<nat>
    requires |tree| == |dist| == NUM_NODES && u < NUM_NODES && v < NUM_NODES && x < NUM_NODES
  {
    if x == v then tree[u] + [v]
    else if dist[x] != NONE && v in tree[x] then tree[u] + tree[x][Place(tree[x], v)..]
    else tree[x]
  }

  function Place(p: seq<nat>, v: nat): (k: nat)
    requires v in p
    ensures k < |p| && p[k] == v
  {
    if p[0] == v then 0 else 1 + Place(p[1..], v)
  }

  /** An ancestor's label is too low to be relaxed: `v` is not on the branch of `u`. */
  lemma NotAnAncestor(g: Graph, s: nat, dist: seq<int>, prev: seq<int>, tree: seq<seq<nat>>, u: nat, v: nat, d: int)
    requires NonNegative(g) && TreeOk(g, s, dist, prev, tree) && u < NUM_NODES && dist[u] != NONE && dist[u] <= d
    requires v < NUM_NODES && (dist[v] == NONE || dist[v] > d)
    ensures v !in tree[u]
  {
    assert Branch(g, s, dist, prev, tree, u);
    if v in tree[u] {
      var k := Place(tree[u], v);
      assert BranchAt(g, dist, prev, tree, u, k);
      LabelsRise(g, s, dist, prev, tree, u, k, |tree[u]| - 1);
    }
  }

  /** Nodes on the branch of a node that is not below `v` are not below `v` either. */
  lemma AncestorsApart(g: Graph, s: nat, dist: seq<int>, prev: seq<int>, tree: seq<seq<nat>>, x: nat, v: nat, j: nat)
    requires TreeOk(g, s, dist, prev, tree) && x < NUM_NODES && dist[x] != NONE && v !in tree[x] && j < |tree[x]|
    ensures tree[x][j] < NUM_NODES && tree[x][j] != v && v !in tree[tree[x][j]] && tree[tree[x][j]] == tree[x][..j + 1]
  {
    assert Branch(g, s, dist, prev, tree, x);
    assert BranchAt(g, dist, prev, tree, x, j);
  }

  /** Nodes further down a branch through `v` have the same part above them. */
  lemma BelowV(g: Graph, s: nat, dist: seq<int>, prev: seq<int>, tree: seq<seq<nat>>, x: nat, v: nat, j: nat)
    requires TreeOk(g, s, dist, prev, tree) && x < NUM_NODES && dist[x] != NONE && v in tree[x] &&
             Place(tree[x], v) <= j < |tree[x]|
    ensures var y := tree[x][j];
            y < NUM_NODES && dist[y] != NONE && tree[y] == tree[x][..j + 1] && v in tree[y] &&
            Place(tree[y], v) == Place(tree[x], v) &&
            (y == v <==> j == Place(tree[x], v))
  {
    assert Branch(g, s, dist, prev, tree, x);
    assert BranchAt(g, dist, prev, tree, x, j);
    var y, k := tree[x][j], Place(tree[x], v);
    assert tree[y][k] == v;
    assert BranchAt(g, dist, prev, tree, x, k);
    assert Branch(g, s, dist, prev, tree, y);
  }

  /** The two parts of a regrown branch share no node. */
  lemma PartsApart(g: Graph, s: nat, dist: seq<int>, prev: seq<int>, tree: seq<seq<nat>>, u: nat, x: nat, v: nat)
    requires TreeOk(g, s, dist, prev, tree) && u < NUM_NODES && dist[u] != NONE && v !in tree[u]
    requires x < NUM_NODES && dist[x] != NONE && v in tree[x]
    ensures Distinct(tree[u] + tree[x][Place(tree[x], v)..])
  {
    var k := Place(tree[x], v);
    assert Branch(g, s, dist, prev, tree, x) && Branch(g, s, dist, prev, tree, u);
    forall i, j | 0 <= i < |tree[u]| && k <= j < |tree[x]|
      ensures tree[u][i] != tree[x][j]
    {
      AncestorsApart(g, s, dist, prev, tree, u, v, i);
      BelowV(g, s, dist, prev, tree, x, v, j);
    }
  }

  /** A relaxed edge keeps the pointers a tree. */
  lemma TreeRelax(g: Graph, s: nat, dist: seq<int>, prev: seq<int>, tree: seq<seq<nat>>, u: nat, v: nat, d: int)
    requires NonNegative(g) && TreeOk(g, s, dist, prev, tree) && Edge(g, u, v) && v != s && dist[u] != NONE &&
             dist[u] <= d
    requires (dist[v] == NONE || dist[v] > d + g[u][v]) && d + g[u][v] != NONE
    ensures TreeOk(g, s, dist[v := d + g[u][v]], prev[v := u], Regrown(tree, dist, u, v))
  {
    NotAnAncestor(g, s, dist, prev, tree, u, v, d);
    var dist', prev', tree' := dist[v := d + g[u][v]], prev[v := u], Regrown(tree, dist, u, v);
    forall x: nat | x < NUM_NODES
      ensures Branch(g, s, dist', prev', tree', x)
    {
      assert Branch(g, s, dist, prev, tree, x) && Branch(g, s, dist, prev, tree, u);
      if x == v {
        RelaxedBranch(g, s, dist, prev, tree, u, v, d);
      } else if dist[x] != NONE && v in tree[x] {
        BelowV(g, s, dist, prev, tree, x, v, Place(tree[x], v));
        LowerBranch(g, s, dist, prev, tree, u, v, d, x);
      } else if dist[x] != NONE {
        forall j: nat | j < |tree[x]|
          ensures BranchAt(g, dist', prev', tree', x, j)
        {
          SameBranchAt(g, s, dist, prev, tree, u, v, d, x, j);
        }
      }
    }
  }

  /** Positions on a branch that does not go through `v`. */
  lemma SameBranchAt(g: Graph, s: nat, dist: seq<int>, prev: seq<int>, tree: seq<seq<nat>>, u: nat, v: nat, d: int,
      x: nat, j: nat)
    requires TreeOk(g, s, dist, prev, tree) && Edge(g, u, v) && x < NUM_NODES && dist[x] != NONE && x != v &&
             v !in tree[x] && j < |tree[x]|
    ensures BranchAt(g, dist[v := d + g[u][v]], prev[v := u], Regrown(tree, dist, u, v), x, j)
  {
    assert Branch(g, s, dist, prev, tree, x);
    assert BranchAt(g, dist, prev, tree, x, j);
    AncestorsApart(g, s, dist, prev, tree, x, v, j);
    if j > 0 { AncestorsApart(g, s, dist, prev, tree, x, v, j - 1); }
  }

  lemma RelaxedBranch(g: Graph, s: nat, dist: seq<int>, prev: seq<int>, tree: seq<seq<nat>>, u: nat, v: nat, d: int)
    requires TreeOk(g, s, dist, prev, tree) && Edge(g, u, v) && dist[u] != NONE && dist[u] <= d && v !in tree[u] &&
             d + g[u][v] != NONE
    ensures Branch(g, s, dist[v := d + g[u][v]], prev[v := u], Regrown(tree, dist, u, v), v)
  {
    var dist', prev', tree' := dist[v := d + g[u][v]], prev[v := u], Regrown(tree, dist, u, v);
    assert Branch(g, s, dist, prev, tree, u);
    assert tree'[v] == tree[u] + [v];
    forall j: nat | j < |tree'[v]|
      ensures BranchAt(g, dist', prev', tree', v, j)
    {
      if j < |tree[u]| {
        assert BranchAt(g, dist, prev, tree, u, j);
        AncestorsApart(g, s, dist, prev, tree, u, v, j);
        if j > 0 { AncestorsApart(g, s, dist, prev, tree, u, v, j - 1); }
        assert tree'[v][..j + 1] == tree[u][..j + 1];
      } else {
        assert tree'[v][..j + 1] == tree'[v];
        AncestorsApart(g, s, dist, prev, tree, u, v, j - 1);
      }
    }
  }

  lemma LowerBranch(g: Graph, s: nat, dist: seq<int>, prev: seq<int>, tree: seq<seq<nat>>, u: nat, v: nat, d: int,
      x: nat)
    requires TreeOk(g, s, dist, prev, tree) && Edge(g, u, v) && dist[u] != NONE && dist[u] <= d && v !in tree[u] &&
             d + g[u][v] != NONE
    requires x < NUM_NODES && x != v && dist[x] != NONE && v in tree[x] && dist[v] > d + g[u][v]
    ensures Branch(g, s, dist[v := d + g[u][v]], prev[v := u], Regrown(tree, dist, u, v), x)
  {
    var dist', prev', tree' := dist[v := d + g[u][v]], prev[v := u], Regrown(tree, dist, u, v);
    PartsApart(g, s, dist, prev, tree, u, x, v);
    Ends(g, s, dist, prev, tree, u, x, v);
    forall j: nat | j < |tree'[x]|
      ensures BranchAt(g, dist', prev', tree', x, j)
    {
      if j < |tree[u]| {
        UpperPart(g, s, dist, prev, tree, u, v, d, x, j);
      } else {
        LowerPart(g, s, dist, prev, tree, u, v, d, x, j, Place(tree[x], v) + (j - |tree[u]|));
      }
    }
  }

  lemma Ends(g: Graph, s: nat, dist: seq<int>, prev: seq<int>, tree: seq<seq<nat>>, u: nat, x: nat, v: nat)
    requires TreeOk(g, s, dist, prev, tree) && u < NUM_NODES && dist[u] != NONE && x < NUM_NODES && dist[x] != NONE &&
             v in tree[x]
    ensures var b := tree[u] + tree[x][Place(tree[x], v)..];
            b != [] && b[0] == s && Last(b) == x
  {
    assert Branch(g, s, dist, prev, tree, x) && Branch(g, s, dist, prev, tree, u);
  }

  /** Positions above `v` on a regrown branch. */
  lemma UpperPart(g: Graph, s: nat, dist: seq<int>, prev: seq<int>, tree: seq<seq<nat>>, u: nat, v: nat, d: int,
      x: nat, j: nat)
    requires TreeOk(g, s, dist, prev, tree) && Edge(g, u, v) && dist[u] != NONE && v !in tree[u]
    requires x < NUM_NODES && x != v && dist[x] != NONE && v in tree[x] && j < |tree[u]|
    ensures BranchAt(g, dist[v := d + g[u][v]], prev[v := u], Regrown(tree, dist, u, v), x, j)
  {
    var b := tree[u] + tree[x][Place(tree[x], v)..];
    assert Branch(g, s, dist, prev, tree, u);
    assert BranchAt(g, dist, prev, tree, u, j);
    AncestorsApart(g, s, dist, prev, tree, u, v, j);
    if j > 0 { AncestorsApart(g, s, dist, prev, tree, u, v, j - 1); }
    assert b[..j + 1] == tree[u][..j + 1];
  }

  /** Position `j` of a regrown branch, at `v` or below it; `m` is where it was before. */
  lemma LowerPart(g: Graph, s: nat, dist: seq<int>, prev: seq<int>, tree: seq<seq<nat>>, u: nat, v: nat, d: int,
      x: nat, j: nat, m: nat)
    requires TreeOk(g, s, dist, prev, tree) && Edge(g, u, v) && dist[u] != NONE && dist[u] <= d && v !in tree[u] &&
             d + g[u][v] != NONE
    requires x < NUM_NODES && x != v && dist[x] != NONE && v in tree[x] && dist[v] > d + g[u][v]
    requires |tree[u]| <= j && m == Place(tree[x], v) + (j - |tree[u]|) < |tree[x]|
    ensures BranchAt(g, dist[v := d + g[u][v]], prev[v := u], Regrown(tree, dist, u, v), x, j)
  {
    var k := Place(tree[x], v);
    BelowV(g, s, dist, prev, tree, x, v, m);
    RegrownPrefix(tree[u], tree[x], k, j, m);
    assert Branch(g, s, dist, prev, tree, u) && Branch(g, s, dist, prev, tree, x);
    if j == |tree[u]| {
      AncestorsApart(g, s, dist, prev, tree, u, v, j - 1);
    } else {
      BelowV(g, s, dist, prev, tree, x, v, m - 1);
      assert BranchAt(g, dist, prev, tree, x, m);
    }
  }

  lemma RegrownPrefix(a: seq<nat>, b: seq<nat>, k: nat, j: nat, m: nat)
    requires k <= m < |b| && |a| <= j && m == k + (j - |a|)
    ensures (a + b[k..])[..j + 1] == a + b[..m + 1][k..] && (a + b[k..])[j] == b[m]
    ensures j == |a| ==> b[..m + 1][k..] == [b[k]]
    ensures j > |a| ==> (a + b[k..])[j - 1] == b[m - 1]
  {
  }

  lemma StartLabel(g: Graph, s: nat, dist: seq<int>, gh: Ghosts, cur: Item)
    requires Inv(g, s, dist, [], gh, cur, NUM_NODES)
    ensures |dist| == NUM_NODES && s < NUM_NODES && dist[s] == 0
  {
  }

  /** At the end the branch of a labelled node is a path of least cost. */
  lemma {:induction false} BranchTight(g: Graph, s: nat, dist: seq<int>, prev: seq<int>, tree: seq<seq<nat>>,
      gh: Ghosts, cur: Item, x: nat, j: nat)
    requires Inv(g, s, dist, [], gh, cur, NUM_NODES) && TreeOk(g, s, dist, prev, tree) && x < NUM_NODES &&
             dist[x] != NONE && j < |tree[x]|
    ensures Path(g, s, tree[x][..j + 1]) && Cost(g, tree[x][..j + 1]) == dist[tree[x][j]]
  {
    hide Inv;
    assert Branch(g, s, dist, prev, tree, x);
    assert BranchAt(g, dist, prev, tree, x, j);
    var p := tree[x][..j + 1];
    if j == 0 {
      StartLabel(g, s, dist, gh, cur);
      assert p == [s];
    } else {
      BranchTight(g, s, dist, prev, tree, gh, cur, x, j - 1);
      var q := tree[x][..j];
      assert p == q + [tree[x][j]] && Last(q) == tree[x][j - 1];
      CostExtend(g, s, q, tree[x][j]);
      NoneCheaper(g, s, dist, gh, cur, p);
    }
  }
}
