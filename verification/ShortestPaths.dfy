/**
 * The shortest-path program of benchmark/source/dijkstra: a linked FIFO queue and the loop that
 * corrects labels until the queue is empty.
 */
module ShortestPaths {
  import opened LabelCorrecting
  import opened PredecessorTree

  class QItem {
    var iNode: nat
    var iDist: int
    var iPrev: int
    var qNext: QItem?

    constructor (item: Item)
      ensures iNode == item.node && iDist == item.dist && iPrev == item.prev && qNext == null
    {
      iNode, iDist, iPrev, qNext := item.node, item.dist, item.prev, null;
    }
  }

  class Queue {
    var qHead: QItem?
    var qCount: nat
    ghost var spine: seq<QItem>

    ghost predicate Valid()
      reads this, spine
    {
      qCount == |spine| && qHead == (if spine == [] then null else spine[0]) &&
      (forall i, j :: 0 <= i < j < |spine| ==> spine[i] != spine[j]) &&
      forall i: nat :: i < |spine| ==> LinkAt(i)
    }

    ghost predicate LinkAt(i: nat)
      requires i < |spine|
      reads this, spine
    {
      spine[i].qNext == if i + 1 < |spine| then spine[i + 1] else null
    }

    ghost function Contents(): (c: seq<Item>)
      reads this, spine
      ensures |c| == |spine|
    {
      seq(|spine|, i requires 0 <= i < |spine| reads this, spine => Item(spine[i].iNode, spine[i].iDist,
          spine[i].iPrev))
    }

    constructor ()
      ensures Valid() && Contents() == [] && fresh(spine)
    {
      qHead, qCount, spine := null, 0, [];
    }

    /** Append at the end, after walking the whole list. */
    method Enqueue(item: Item)
      requires Valid()
      modifies this, spine
      ensures Valid() && Contents() == old(Contents()) + [item] && fresh(set x | x in spine && x !in old(spine))
    {
      var qNew := new QItem(item);
      var qLast := qHead;
      if qLast == null {
        qHead := qNew;
      } else {
        ghost var k: nat := 0;
        while qLast.qNext != null
          invariant k < |spine| && qLast == spine[k]
          decreases |spine| - k
        {
          assert LinkAt(k);
          qLast := qLast.qNext;
          k := k + 1;
        }
        assert LinkAt(k);
        qLast.qNext := qNew;
      }
      spine := spine + [qNew];
      qCount := qCount + 1;
      forall i: nat | i < |spine|
        ensures LinkAt(i)
      {
        if i < |spine| - 1 { assert old(LinkAt(i)); }
      }
    }

    /** Take the first item, if there is one. */
    method Dequeue() returns (ok: bool, item: Item)
      requires Valid()
      modifies this
      ensures Valid() && ok == (old(Contents()) != [])
      ensures ok ==> item == old(Contents()[0]) && Contents() == old(Contents()[1..]) && spine == old(spine[1..])
    {
      ok, item := qHead != null, Item(0, 0, 0);
      if qHead != null {
        item := Item(qHead.iNode, qHead.iDist, qHead.iPrev);
        assert LinkAt(0);
        qHead := qHead.qNext;
        spine := spine[1..];
        qCount := qCount - 1;
        forall i: nat | i < |spine|
          ensures LinkAt(i)
        {
          assert old(LinkAt(i + 1));
        }
      }
    }
  }

  // ---- termination: labels fall, or the queue shrinks

  function Sum(dist: seq<int>, n: nat): int
    requires n <= |dist|
  {
    if n == 0 then 0 else Sum(dist, n - 1) + dist[n - 1]
  }

  lemma {:induction false} SumFalls(dist: seq<int>, n: nat, v: nat, d: int)
    requires n <= |dist| && v < |dist|
    ensures Sum(dist[v := d], n) == Sum(dist, n) + if v < n then d - dist[v] else 0
  {
    if n > 0 { SumFalls(dist, n - 1, v, d); }
  }

  lemma {:induction false} SumNotNegative(dist: seq<int>, n: nat)
    requires n <= |dist| && forall u :: 0 <= u < |dist| ==> dist[u] >= 0
    ensures Sum(dist, n) >= 0
  {
    if n > 0 { SumNotNegative(dist, n - 1); }
  }

  /** Labels never go below zero. */
  lemma LabelsNotNegative(g: Graph, s: nat, dist: seq<int>, queue: seq<Item>, gh: Ghosts, cur: Item, n: nat)
    requires Inv(g, s, dist, queue, gh, cur, n)
    ensures Sum(dist, NUM_NODES) >= 0 && forall u :: 0 <= u < NUM_NODES ==> 0 <= dist[u] <= NONE
  {
    forall u | 0 <= u < NUM_NODES
      ensures 0 <= dist[u] <= NONE
    {
      assert LabelOk(g, s, dist, gh, u);
      if dist[u] != NONE { LabelBound(g, s, dist, u, dist[u], gh.labels[u]); }
    }
    SumNotNegative(dist, NUM_NODES);
  }

  class Solver {
    const g: Graph
    const iDist: array<int>
    const iPrev: array<int>
    const queue: Queue

    ghost predicate Shaped()
      reads this, queue, queue.spine
    {
      iDist.Length == iPrev.Length == NUM_NODES && iDist != iPrev && queue.Valid()
    }

    constructor (g: Graph)
      ensures this.g == g && Shaped() && queue.Contents() == []
      ensures fresh(iDist) && fresh(iPrev) && fresh(queue) && fresh(queue.spine)
    {
      this.g := g;
      iDist := new int[NUM_NODES];
      iPrev := new int[NUM_NODES];
      queue := new Queue();
    }

    /** The search for `s` stands at edge `n` of item `cur`. */
    ghost predicate Searching(s: nat, gh: Ghosts, tree: seq<seq<nat>>, cur: Item, n: nat)
      reads this, iDist, iPrev, queue, queue.spine
    {
      Shaped() && Inv(g, s, iDist[..], queue.Contents(), gh, cur, n) && TreeOk(g, s, iDist[..], iPrev[..], tree)
    }

    /** One edge of the current item. */
    method Edge1(s: nat, cur: Item, i: nat, ghost gh: Ghosts, ghost tree: seq<seq<nat>>, ghost p: seq<nat>)
      returns (ghost gh': Ghosts, ghost tree': seq<seq<nat>>)
      requires Searching(s, gh, tree, cur, i) && i < NUM_NODES && cur.node < NUM_NODES &&
               Witness(g, s, iDist[..], cur.node, cur.dist, p)
      modifies iDist, iPrev, queue, queue.spine
      ensures Searching(s, gh', tree', cur, i + 1) && Witness(g, s, iDist[..], cur.node, cur.dist, p)
      ensures fresh(set x | x in queue.spine && x !in old(queue.spine))
      ensures (Sum(iDist[..], NUM_NODES) == old(Sum(iDist[..], NUM_NODES)) && queue.qCount == old(queue.qCount)) ||
              Sum(iDist[..], NUM_NODES) < old(Sum(iDist[..], NUM_NODES))
    {
      hide Witness, Sum, LabelOk, ItemOk, Covered;
      gh', tree' := gh, tree;
      ghost var dist, prev := iDist[..], iPrev[..];
      var iCost := g[cur.node][i];
      if iCost != NONE && (iDist[i] == NONE || iDist[i] > iCost + cur.dist) {
        Relax(g, s, dist, queue.Contents(), gh, cur, p, i);
        RelaxTree(s, dist, prev, queue.Contents(), gh, tree, cur, p, i);
        gh' := Ghosts(gh.labels[i := p + [i]], gh.items + [p + [i]]);
        tree' := Regrown(tree, dist, cur.node, i);
        SumFalls(dist, NUM_NODES, i, cur.dist + iCost);
        iDist[i] := cur.dist + iCost;
        iPrev[i] := cur.node;
        queue.Enqueue(Item(i, cur.dist + iCost, cur.node));
        assert iDist[..] == dist[i := cur.dist + iCost] && iPrev[..] == prev[i := cur.node];
      } else {
        Skip(g, s, dist, queue.Contents(), gh, cur, i);
      }
    }

    lemma RelaxTree(s: nat, dist: seq<int>, prev: seq<int>, items: seq<Item>, gh: Ghosts, tree: seq<seq<nat>>,
        cur: Item, p: seq<nat>, v: nat)
      requires Inv(g, s, dist, items, gh, cur, v) && TreeOk(g, s, dist, prev, tree) && v < NUM_NODES &&
               cur.node < NUM_NODES
      requires Witness(g, s, dist, cur.node, cur.dist, p) && LabelCorrecting.Edge(g, cur.node, v)
      requires dist[v] == NONE || dist[v] > cur.dist + g[cur.node][v]
      ensures TreeOk(g, s, dist[v := cur.dist + g[cur.node][v]], prev[v := cur.node], Regrown(tree, dist, cur.node, v))
      ensures cur.dist + g[cur.node][v] < if dist[v] == NONE then NONE else dist[v]
    {
      NewPath(g, s, dist, cur.node, cur.dist, p, v);
      StartKept(g, s, dist, cur, p, v);
      assert DominatedAt(g, dist, p, |p| - 1);
      assert p[..|p|] == p;
      TreeRelax(g, s, dist, prev, tree, cur.node, v, cur.dist);
    }

    /** All edges of the item at the head of the queue. */
    method NextItem(s: nat, ghost gh: Ghosts, ghost tree: seq<seq<nat>>, ghost before: Item)
      returns (ghost gh': Ghosts, ghost tree': seq<seq<nat>>, ghost cur: Item)
      requires Searching(s, gh, tree, before, NUM_NODES) && queue.qCount > 0
      modifies iDist, iPrev, queue, queue.spine
      ensures Searching(s, gh', tree', cur, NUM_NODES)
      ensures fresh(set x | x in queue.spine && x !in old(queue.spine))
      ensures (Sum(iDist[..], NUM_NODES) == old(Sum(iDist[..], NUM_NODES)) && queue.qCount < old(queue.qCount)) ||
              Sum(iDist[..], NUM_NODES) < old(Sum(iDist[..], NUM_NODES))
    {
      Take(g, s, iDist[..], queue.Contents(), gh, before);
      ghost var p := gh.items[0];
      gh', tree' := Ghosts(gh.labels, gh.items[1..]), tree;
      var ok, item := queue.Dequeue();
      cur := item;
      for i := 0 to NUM_NODES
        invariant Searching(s, gh', tree', item, i) && Witness(g, s, iDist[..], item.node, item.dist, p) &&
                  item.node < NUM_NODES
        invariant fresh(set x | x in queue.spine && x !in old(queue.spine))
        invariant (Sum(iDist[..], NUM_NODES) == old(Sum(iDist[..], NUM_NODES)) && queue.qCount < old(queue.qCount)) ||
                  Sum(iDist[..], NUM_NODES) < old(Sum(iDist[..], NUM_NODES))
      {
        gh', tree' := Edge1(s, item, i, gh', tree', p);
      }
    }

    method Clear()
      requires Shaped()
      modifies iDist, iPrev
      ensures forall k :: 0 <= k < NUM_NODES ==> iDist[k] == iPrev[k] == NONE
    {
      for ch := 0 to NUM_NODES
        invariant forall k :: 0 <= k < ch ==> iDist[k] == iPrev[k] == NONE
      {
        iDist[ch], iPrev[ch] := NONE, NONE;
      }
    }

    /** The search proper: when it ends, every label is the least cost of a path from `s`, and
        the pointers lead along such paths. */
    method Search(s: nat) returns (ghost tree: seq<seq<nat>>)
      requires Shaped() && queue.Contents() == [] && Tractable(g, s)
      requires forall k :: 0 <= k < NUM_NODES ==> iDist[k] == iPrev[k] == NONE
      modifies iDist, iPrev, queue, queue.spine
      ensures Shaped() && queue.Contents() == [] && TreeOk(g, s, iDist[..], iPrev[..], tree)
      ensures forall u: nat :: u < NUM_NODES ==> Shortest(g, s, iDist[..], u)
      ensures forall u: nat :: u < NUM_NODES && iDist[u] != NONE ==> Path(g, s, tree[u]) && Cost(g, tree[u]) == iDist[u]
    {
      iDist[s], iPrev[s] := 0, NONE;
      queue.Enqueue(Item(s, 0, NONE));
      ghost var gh, cur := StartGhosts(s), Item(s, 0, NONE);
      tree := gh.labels;
      StartInv(g, s, iDist[..], iPrev[..], queue.Contents());
      while queue.qCount > 0
        invariant Searching(s, gh, tree, cur, NUM_NODES)
        invariant fresh(set x | x in queue.spine && x !in old(queue.spine))
        decreases Sum(iDist[..], NUM_NODES), queue.qCount
      {
        LabelsNotNegative(g, s, iDist[..], queue.Contents(), gh, cur, NUM_NODES);
        gh, tree, cur := NextItem(s, gh, tree, cur);
        LabelsNotNegative(g, s, iDist[..], queue.Contents(), gh, cur, NUM_NODES);
      }
      assert queue.Contents() == [];
      AllShortest(g, s, iDist[..], gh, cur);
      AllTight(g, s, iDist[..], iPrev[..], tree, gh, cur);
    }
  }

  ghost function StartGhosts(s: nat): (gh: Ghosts)
    ensures |gh.labels| == NUM_NODES && forall u :: 0 <= u < NUM_NODES ==> gh.labels[u] == [s]
  {
    Ghosts(seq(NUM_NODES, _ => [s]), [[s]])
  }

  lemma StartInv(g: Graph, s: nat, dist: seq<int>, prev: seq<int>, queue: seq<Item>)
    requires Tractable(g, s) && |dist| == |prev| == NUM_NODES && queue == [Item(s, 0, NONE)]
    requires forall u :: 0 <= u < NUM_NODES ==> prev[u] == NONE && dist[u] == if u == s then 0 else NONE
    ensures Inv(g, s, dist, queue, StartGhosts(s), Item(s, 0, NONE), NUM_NODES)
    ensures TreeOk(g, s, dist, prev, StartGhosts(s).labels)
  {
    var gh, cur := StartGhosts(s), Item(s, 0, NONE);
    assert [s][..1] == [s] && DominatedAt(g, dist, [s], 0);
    assert Witness(g, s, dist, s, 0, [s]);
    forall u: nat | u < NUM_NODES
      ensures Covered(g, dist, queue, u, cur, NUM_NODES)
    {
      assert queue[0].node == s && queue[0].dist == 0;
    }
    forall x: nat | x < NUM_NODES
      ensures Branch(g, s, dist, prev, gh.labels, x)
    {
      if x == s { assert BranchAt(g, dist, prev, gh.labels, s, 0); }
    }
  }

  lemma AllTight(g: Graph, s: nat, dist: seq<int>, prev: seq<int>, tree: seq<seq<nat>>, gh: Ghosts, cur: Item)
    requires Inv(g, s, dist, [], gh, cur, NUM_NODES) && TreeOk(g, s, dist, prev, tree)
    ensures forall u: nat :: u < NUM_NODES && dist[u] != NONE ==> Path(g, s, tree[u]) && Cost(g, tree[u]) == dist[u]
  {
    forall u: nat | u < NUM_NODES && dist[u] != NONE
      ensures Path(g, s, tree[u]) && Cost(g, tree[u]) == dist[u]
    {
      assert Branch(g, s, dist, prev, tree, u);
      BranchTight(g, s, dist, prev, tree, gh, cur, u, |tree[u]| - 1);
      assert tree[u][..|tree[u]|] == tree[u];
    }
  }

  /** print_path: the nodes it prints, the start first. The recursion ends because the pointers
      form a tree. */
  method PrintPath(g: Graph, s: nat, iDist: array<int>, iPrev: array<int>, chNode: nat, ghost tree: seq<seq<nat>>)
      returns (printed: seq<nat>)
    requires iDist.Length == iPrev.Length == NUM_NODES && chNode < NUM_NODES && TreeOk(g, s, iDist[..], iPrev[..], tree)
    ensures printed == if iDist[chNode] == NONE then [chNode] else tree[chNode]
    decreases if iDist[chNode] == NONE then 0 else |tree[chNode]|
  {
    assert Branch(g, s, iDist[..], iPrev[..], tree, chNode);
    printed := [];
    if iDist[chNode] != NONE { assert BranchAt(g, iDist[..], iPrev[..], tree, chNode, |tree[chNode]| - 1); }
    if iPrev[chNode] != NONE {
      ghost var t := tree[chNode];
      assert BranchAt(g, iDist[..], iPrev[..], tree, chNode, |t| - 2);
      printed := PrintPath(g, s, iDist, iPrev, iPrev[chNode], tree);
      assert t == t[..|t| - 1] + [chNode];
    }
    printed := printed + [chNode];
  }

  /** dijkstra: the cost and the nodes of a cheapest path, or NONE. For equal end points the cost is
      zero, the least there is, and no path is printed. */
  method Dijkstra(solver: Solver, chStart: nat, chEnd: nat) returns (cost: int, printed: seq<nat>)
    requires solver.Shaped() && solver.queue.Contents() == [] && Tractable(solver.g, chStart) && chEnd < NUM_NODES
    modifies solver.iDist, solver.iPrev, solver.queue, solver.queue.spine
    ensures solver.Shaped() && solver.queue.Contents() == []
    ensures if cost == NONE then forall p :: Path(solver.g, chStart, p) ==> Last(p) != chEnd
            else forall p :: Path(solver.g, chStart, p) && Last(p) == chEnd ==> cost <= Cost(solver.g, p)
    ensures if chStart == chEnd then cost == 0 && printed == []
            else cost != NONE ==>
                   Path(solver.g, chStart, printed) && Last(printed) == chEnd && Cost(solver.g, printed) == cost
  {
    solver.Clear();
    if chStart == chEnd {
      forall p | Path(solver.g, chStart, p)
        ensures Cost(solver.g, p) >= 0
      {
        PrefixCheaper(solver.g, chStart, p, 1);
      }
      return 0, [];
    }
    ghost var tree := solver.Search(chStart);
    cost := solver.iDist[chEnd];
    assert Shortest(solver.g, chStart, solver.iDist[..], chEnd);
    assert Branch(solver.g, chStart, solver.iDist[..], solver.iPrev[..], tree, chEnd);
    printed := PrintPath(solver.g, chStart, solver.iDist, solver.iPrev, chEnd, tree);
  }
}
