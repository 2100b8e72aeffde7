/**
 * The grid seen as a graph with virtual nodes: the n * n cells, a virtual top node n * n
 * joined to every open cell of the first row and, optionally, a virtual bottom node
 * n * n + 1 joined to every open cell of the last row. A union-find forest over these nodes
 * is sound when it only puts together nodes that the graph connects, and complete when it
 * puts together the two ends of every edge.
 */
module VirtualNodes {
  import opened Outcomes
  import opened Forest
  import opened Grid

  /** The number of nodes: the cells, the top node and, with a bottom node, that one too. */
  function NodeCount(n: int, withBottom: bool): int
  {
    n * n + if withBottom then 2 else 1
  }

  /** An open cell of the first row. */
  ghost predicate TopCell(n: int, open: seq<bool>, c: int)
    requires n > 0
  {
    0 <= c < |open| && open[c] && RowOf(n, c) == 0
  }

  /** An open cell of the last row. */
  ghost predicate BottomCell(n: int, open: seq<bool>, c: int)
    requires n > 0
  {
    0 <= c < |open| && open[c] && RowOf(n, c) == n - 1
  }

  /** Nodes x and y are joined by an edge: two open cells sharing a side, or a virtual node and an open cell of its row. */
  ghost predicate Edge(n: int, open: seq<bool>, withBottom: bool, x: int, y: int)
    requires n > 0
  {
    || (Adjacent(n, x, y) && x < |open| && y < |open| && open[x] && open[y])
    || (x == n * n && TopCell(n, open, y))
    || (y == n * n && TopCell(n, open, x))
    || (withBottom && x == n * n + 1 && BottomCell(n, open, y))
    || (withBottom && y == n * n + 1 && BottomCell(n, open, x))
  }

  /** p is a nonempty walk along edges through nodes of the graph. */
  ghost predicate NodePath(n: int, open: seq<bool>, withBottom: bool, p: seq<int>)
    requires n > 0
  {
    && |p| >= 1
    && (forall k :: 0 <= k < |p| ==> 0 <= p[k] < NodeCount(n, withBottom))
    && (forall k :: 0 <= k < |p| - 1 ==> Edge(n, open, withBottom, p[k], p[k + 1]))
  }

  /** Node y can be reached from node x along edges. */
  ghost predicate Reach(n: int, open: seq<bool>, withBottom: bool, x: int, y: int)
    requires n > 0
  {
    exists p {:trigger NodePath(n, open, withBottom, p)} :: NodePath(n, open, withBottom, p) && p[0] == x && p[|p| - 1] == y
  }

  /** Every node reaches itself. */
  lemma ReachSelf(n: int, open: seq<bool>, withBottom: bool, x: int)
    requires n > 0 && 0 <= x < NodeCount(n, withBottom)
    ensures Reach(n, open, withBottom, x, x)
  {
    assert NodePath(n, open, withBottom, [x]);
  }

  /** The two ends of an edge reach each other. */
  lemma ReachEdge(n: int, open: seq<bool>, withBottom: bool, x: int, y: int)
    requires n > 0 && |open| == n * n && Edge(n, open, withBottom, x, y)
    ensures Reach(n, open, withBottom, x, y)
  {
    assert NodePath(n, open, withBottom, [x, y]);
  }

  /** Walks that meet can be joined. */
  lemma ReachTrans(n: int, open: seq<bool>, withBottom: bool, x: int, y: int, z: int)
    requires n > 0 && Reach(n, open, withBottom, x, y) && Reach(n, open, withBottom, y, z)
    ensures Reach(n, open, withBottom, x, z)
  {
    var p :| NodePath(n, open, withBottom, p) && p[0] == x && p[|p| - 1] == y;
    var q :| NodePath(n, open, withBottom, q) && q[0] == y && q[|q| - 1] == z;
    var pq := p + q[1..];
    assert forall k :: 0 <= k < |pq| ==> pq[k] == (if k < |p| then p[k] else q[k - |p| + 1]);
    forall k | 0 <= k < |pq| - 1 ensures Edge(n, open, withBottom, pq[k], pq[k + 1]) {
      if k >= |p| - 1 {
        assert pq[k] == q[k - |p| + 1];
      }
    }
    assert NodePath(n, open, withBottom, pq);
  }

  /** Edges have no direction. */
  lemma EdgeSym(n: int, open: seq<bool>, withBottom: bool, x: int, y: int)
    requires n > 0 && Edge(n, open, withBottom, x, y)
    ensures Edge(n, open, withBottom, y, x)
  {
  }

  /** A walk can be followed backwards. */
  lemma ReachSym(n: int, open: seq<bool>, withBottom: bool, x: int, y: int)
    requires n > 0 && Reach(n, open, withBottom, x, y)
    ensures Reach(n, open, withBottom, y, x)
  {
    var p :| NodePath(n, open, withBottom, p) && p[0] == x && p[|p| - 1] == y;
    var q := seq(|p|, k requires 0 <= k < |p| => p[|p| - 1 - k]);
    forall k | 0 <= k < |q| - 1 ensures Edge(n, open, withBottom, q[k], q[k + 1]) {
      EdgeSym(n, open, withBottom, p[|p| - 2 - k], p[|p| - 1 - k]);
    }
    assert NodePath(n, open, withBottom, q);
  }

  /** Opening more cells keeps every walk. */
  lemma ReachGrows(n: int, open: seq<bool>, open2: seq<bool>, withBottom: bool, x: int, y: int)
    requires n > 0 && Reach(n, open, withBottom, x, y) && |open2| == |open|
    requires forall k :: 0 <= k < |open| && open[k] ==> open2[k]
    ensures Reach(n, open2, withBottom, x, y)
  {
    var p :| NodePath(n, open, withBottom, p) && p[0] == x && p[|p| - 1] == y;
    assert NodePath(n, open2, withBottom, p);
  }

  /**
   * A forest labelling over the nodes is sound when every two nodes it puts together are
   * connected in the graph.
   */
  ghost predicate Sound(n: int, open: seq<bool>, withBottom: bool, rootOf: seq<int>)
    requires n > 0
  {
    && |rootOf| == NodeCount(n, withBottom)
    && forall x, y {:trigger Together(rootOf, x, y)} :: Together(rootOf, x, y) ==> Reach(n, open, withBottom, x, y)
  }

  /** Singleton components are sound. */
  lemma IdentitySound(n: int, open: seq<bool>, withBottom: bool)
    requires n > 0
    ensures Sound(n, open, withBottom, Identity(NodeCount(n, withBottom)))
  {
    var ids := Identity(NodeCount(n, withBottom));
    forall x, y | Together(ids, x, y) ensures Reach(n, open, withBottom, x, y) {
      ReachSelf(n, open, withBottom, x);
    }
  }

  /** Joining the components of two connected nodes keeps the labelling sound. */
  lemma MergeKeepsSound(n: int, open: seq<bool>, withBottom: bool, rootOf: seq<int>, rootOf2: seq<int>, a: int, b: int)
    requires n > 0 && Sound(n, open, withBottom, rootOf)
    requires 0 <= a < |rootOf| && 0 <= b < |rootOf| && Merged(rootOf, rootOf2, a, b)
    requires Reach(n, open, withBottom, a, b)
    ensures Sound(n, open, withBottom, rootOf2)
  {
    forall x, y | Together(rootOf2, x, y) ensures Reach(n, open, withBottom, x, y) {
      if Together(rootOf, x, y) {
      } else if Together(rootOf, x, a) && Together(rootOf, y, b) {
        assert Reach(n, open, withBottom, x, a) && Reach(n, open, withBottom, y, b);
        ReachSym(n, open, withBottom, y, b);
        ReachTrans(n, open, withBottom, x, a, b);
        ReachTrans(n, open, withBottom, x, b, y);
      } else {
        assert Reach(n, open, withBottom, x, b) && Reach(n, open, withBottom, y, a);
        ReachSym(n, open, withBottom, a, b);
        ReachSym(n, open, withBottom, y, a);
        ReachTrans(n, open, withBottom, x, b, a);
        ReachTrans(n, open, withBottom, x, a, y);
      }
    }
  }

  /** Opening a cell keeps a sound labelling sound. */
  lemma OpenKeepsSound(n: int, open: seq<bool>, withBottom: bool, rootOf: seq<int>, id: int)
    requires n > 0 && Sound(n, open, withBottom, rootOf) && 0 <= id < |open|
    ensures Sound(n, open[id := true], withBottom, rootOf)
  {
    forall x, y | Together(rootOf, x, y) ensures Reach(n, open[id := true], withBottom, x, y) {
      assert Reach(n, open, withBottom, x, y);
      ReachGrows(n, open, open[id := true], withBottom, x, y);
    }
  }

  /** Every open cell of the first row other than id is with the top node. */
  ghost predicate TopJoinedAwayFrom(n: int, open: seq<bool>, rootOf: seq<int>, id: int)
    requires n > 0
  {
    forall c {:trigger TopCell(n, open, c)} :: TopCell(n, open, c) && c != id && c < |rootOf| && n * n < |rootOf| ==>
      rootOf[c] == rootOf[n * n]
  }

  /** Every open cell of the last row other than id is with the bottom node. */
  ghost predicate BottomJoinedAwayFrom(n: int, open: seq<bool>, rootOf: seq<int>, id: int)
    requires n > 0
  {
    forall c {:trigger BottomCell(n, open, c)} :: BottomCell(n, open, c) && c != id && c < |rootOf| && n * n + 1 < |rootOf| ==>
      rootOf[c] == rootOf[n * n + 1]
  }

  /** The labelling puts together the two ends of every edge, except perhaps those at cell id. */
  ghost predicate CompleteAwayFrom(n: int, open: seq<bool>, withBottom: bool, rootOf: seq<int>, id: int)
    requires n > 0
  {
    && JoinedAwayFrom(n, open, rootOf, id)
    && TopJoinedAwayFrom(n, open, rootOf, id)
    && (withBottom ==> BottomJoinedAwayFrom(n, open, rootOf, id))
  }

  /** The labelling puts together the two ends of every edge. */
  ghost predicate Complete(n: int, open: seq<bool>, withBottom: bool, rootOf: seq<int>)
    requires n > 0
  {
    && NeighborsJoined(n, open, rootOf)
    && TopJoinedAwayFrom(n, open, rootOf, -1)
    && (withBottom ==> BottomJoinedAwayFrom(n, open, rootOf, -1))
  }

  /** With every cell closed there is no edge to join. */
  lemma ClosedComplete(n: int, withBottom: bool, rootOf: seq<int>)
    requires n > 0
    ensures Complete(n, seq(n * n, i => false), withBottom, rootOf)
  {
  }

  /** Opening a cell leaves every edge joined except those at the opened cell. */
  lemma OpenKeepsJoins(n: int, open: seq<bool>, withBottom: bool, rootOf: seq<int>, id: int)
    requires n > 0 && |open| == n * n && 0 <= id < n * n && Complete(n, open, withBottom, rootOf)
    ensures CompleteAwayFrom(n, open[id := true], withBottom, rootOf, id)
  {
    var open2 := open[id := true];
    forall a, b | && Adjacent(n, a, b) && a < |open2| && b < |open2| && a < |rootOf| && b < |rootOf|
                  && open2[a] && open2[b] && a != id && b != id
      ensures rootOf[a] == rootOf[b]
    {
      assert open[a] && open[b];
    }
    forall c | TopCell(n, open2, c) && c != id && c < |rootOf| && n * n < |rootOf| ensures rootOf[c] == rootOf[n * n] {
      assert TopCell(n, open, c);
    }
    if withBottom {
      forall c | BottomCell(n, open2, c) && c != id && c < |rootOf| && n * n + 1 < |rootOf|
        ensures rootOf[c] == rootOf[n * n + 1]
      {
        assert BottomCell(n, open, c);
      }
    }
  }

  /** Coarsening a labelling keeps every join with a virtual node. */
  lemma CoarserKeepsVirtualJoins(n: int, open: seq<bool>, rootOf: seq<int>, rootOf2: seq<int>, id: int)
    requires n > 0 && Coarser(rootOf, rootOf2) && |rootOf2| == |rootOf|
    ensures TopJoinedAwayFrom(n, open, rootOf, id) ==> TopJoinedAwayFrom(n, open, rootOf2, id)
    ensures BottomJoinedAwayFrom(n, open, rootOf, id) ==> BottomJoinedAwayFrom(n, open, rootOf2, id)
  {
    if TopJoinedAwayFrom(n, open, rootOf, id) {
      forall c | TopCell(n, open, c) && c != id && c < |rootOf2| && n * n < |rootOf2| ensures rootOf2[c] == rootOf2[n * n] {
        assert Together(rootOf, c, n * n);
      }
    }
    if BottomJoinedAwayFrom(n, open, rootOf, id) {
      forall c | BottomCell(n, open, c) && c != id && c < |rootOf2| && n * n + 1 < |rootOf2|
        ensures rootOf2[c] == rootOf2[n * n + 1]
      {
        assert Together(rootOf, c, n * n + 1);
      }
    }
  }

  /** Coarsening a labelling keeps every pair of open neighbours together. */
  lemma CoarserKeepsNeighborJoins(n: int, open: seq<bool>, rootOf: seq<int>, rootOf2: seq<int>)
    requires Coarser(rootOf, rootOf2) && |rootOf2| == |rootOf| && NeighborsJoined(n, open, rootOf)
    ensures NeighborsJoined(n, open, rootOf2)
  {
    forall a, b | Adjacent(n, a, b) && a < |open| && b < |open| && a < |rootOf2| && b < |rootOf2| && open[a] && open[b]
      ensures rootOf2[a] == rootOf2[b]
    {
      assert Together(rootOf, a, b);
    }
  }

  /**
   * Joining the components of a and b keeps every edge away from id joined, keeps the joins
   * of id already made, and puts a and b together.
   */
  lemma MergeKeepsCompleteAway(n: int, open: seq<bool>, withBottom: bool, rootOf: seq<int>, rootOf2: seq<int>,
                               id: int, a: int, b: int, done: seq<Option<int>>)
    requires n > 0 && 0 <= a < |rootOf| && 0 <= b < |rootOf| && Merged(rootOf, rootOf2, a, b)
    requires CompleteAwayFrom(n, open, withBottom, rootOf, id)
    requires forall nb {:trigger JoinedIfOpen(open, rootOf, id, nb)} :: nb in done ==> JoinedIfOpen(open, rootOf, id, nb)
    ensures CompleteAwayFrom(n, open, withBottom, rootOf2, id)
    ensures forall nb {:trigger JoinedIfOpen(open, rootOf2, id, nb)} :: nb in done ==> JoinedIfOpen(open, rootOf2, id, nb)
    ensures Coarser(rootOf, rootOf2) && rootOf2[a] == rootOf2[b]
  {
    MergeKeepsJoins(n, open, rootOf, rootOf2, id, a, b, done);
    MergedIsCoarser(rootOf, rootOf2, a, b);
    CoarserKeepsVirtualJoins(n, open, rootOf, rootOf2, id);
  }

  /** Joining the same two nodes in a finer and in a coarser labelling keeps the one finer than the other. */
  lemma MergedKeepsCoarser(fine: seq<int>, fine2: seq<int>, coarse: seq<int>, coarse2: seq<int>, a: int, b: int)
    requires 0 <= a < |fine| && 0 <= b < |fine| && Coarser(fine, coarse)
    requires Merged(fine, fine2, a, b) && Merged(coarse, coarse2, a, b)
    ensures Coarser(fine2, coarse2)
  {
    forall x, y | Together(fine2, x, y) ensures Together(coarse2, x, y) {
      if Together(fine, x, y) {
        assert Together(coarse, x, y);
      } else if Together(fine, x, a) && Together(fine, y, b) {
        assert Together(coarse, x, a) && Together(coarse, y, b);
      } else {
        assert Together(coarse, x, b) && Together(coarse, y, a);
      }
    }
  }

  /** Once cell id is with the top node when it is an open first-row cell, every such cell is. */
  lemma TopJoinedAtLast(n: int, open: seq<bool>, rootOf: seq<int>, id: int)
    requires n > 0 && TopJoinedAwayFrom(n, open, rootOf, id)
    requires TopCell(n, open, id) && id < |rootOf| && n * n < |rootOf| ==> rootOf[id] == rootOf[n * n]
    ensures TopJoinedAwayFrom(n, open, rootOf, -1)
  {
  }

  /** Once cell id is with the bottom node when it is an open last-row cell, every such cell is. */
  lemma BottomJoinedAtLast(n: int, open: seq<bool>, rootOf: seq<int>, id: int)
    requires n > 0 && BottomJoinedAwayFrom(n, open, rootOf, id)
    requires BottomCell(n, open, id) && id < |rootOf| && n * n + 1 < |rootOf| ==> rootOf[id] == rootOf[n * n + 1]
    ensures BottomJoinedAwayFrom(n, open, rootOf, -1)
  {
  }

  /** A cell reached by an edge from the top node or from a full cell is full. */
  lemma FullNext(n: int, open: seq<bool>, withBottom: bool, x: int, y: int)
    requires n > 0 && |open| == n * n && Edge(n, open, withBottom, x, y) && 0 <= y < n * n
    requires x == n * n || (0 <= x < n * n && Full(n, open, x))
    ensures Full(n, open, y)
  {
    if x == n * n {
      assert TopCell(n, open, y);
      LinkedSelf(n, open, y);
    } else {
      assert Adjacent(n, x, y) && open[x] && open[y];
      var t :| 0 <= t < |open| && RowOf(n, t) == 0 && Linked(n, open, t, x);
      LinkedStep(n, open, x, y);
      LinkedTrans(n, open, t, x, y);
    }
  }

  /** A walk without the bottom node that starts at the top node or a full cell ends at a full cell, or at the top. */
  lemma {:induction false} FullAlong(n: int, open: seq<bool>, p: seq<int>)
    requires n > 0 && |open| == n * n && NodePath(n, open, false, p) && p[|p| - 1] < n * n
    requires p[0] == n * n || (p[0] < n * n && Full(n, open, p[0]))
    ensures Full(n, open, p[|p| - 1])
    decreases |p|
  {
    if |p| > 1 {
      var q := p[1..];
      assert NodePath(n, open, false, q) by {
        assert forall k :: 0 <= k < |q| ==> q[k] == p[k + 1];
      }
      assert Edge(n, open, false, p[0], p[1]);
      if p[1] != n * n {
        FullNext(n, open, false, p[0], p[1]);
      }
      FullAlong(n, open, q);
    }
  }

  /** A walk that starts at the top node or a full cell and ends at the bottom node crosses the grid. */
  lemma {:induction false} PercolatesAlong(n: int, open: seq<bool>, p: seq<int>)
    requires n > 0 && |open| == n * n && NodePath(n, open, true, p) && p[|p| - 1] == n * n + 1
    requires p[0] == n * n || (0 <= p[0] < n * n && Full(n, open, p[0]))
    ensures PercolatesThrough(n, open)
    decreases |p|
  {
    assert |p| > 1;
    var q := p[1..];
    assert NodePath(n, open, true, q) by {
      assert forall k :: 0 <= k < |q| ==> q[k] == p[k + 1];
    }
    assert Edge(n, open, true, p[0], p[1]);
    if p[1] == n * n + 1 {
      assert BottomCell(n, open, p[0]);
      var t :| 0 <= t < |open| && RowOf(n, t) == 0 && Linked(n, open, t, p[0]);
      assert Linked(n, open, t, p[0]);
    } else {
      if p[1] != n * n {
        FullNext(n, open, true, p[0], p[1]);
      }
      PercolatesAlong(n, open, q);
    }
  }

  /**
   * No backwash in the forest without a bottom node: when it is sound and complete, an open
   * cell is with the top node exactly when it is full.
   */
  lemma TopJoinIsFull(n: int, open: seq<bool>, rootOf: seq<int>, c: int)
    requires n > 0 && |open| == n * n && 0 <= c < n * n && open[c]
    requires Sound(n, open, false, rootOf) && Complete(n, open, false, rootOf)
    ensures rootOf[c] == rootOf[n * n] <==> Full(n, open, c)
  {
    if rootOf[c] == rootOf[n * n] {
      assert Together(rootOf, n * n, c);
      var p :| NodePath(n, open, false, p) && p[0] == n * n && p[|p| - 1] == c;
      FullAlong(n, open, p);
    }
    if Full(n, open, c) {
      var t :| 0 <= t < |open| && RowOf(n, t) == 0 && Linked(n, open, t, c);
      LinkedEndsOpen(n, open, t, c);
      LinkedSameComponent(n, open, rootOf, t, c);
      assert TopCell(n, open, t);
    }
  }

  /**
   * In the forest with both virtual nodes, when it is sound and complete, the bottom node is
   * with the top node exactly when the grid percolates.
   */
  lemma BottomJoinIsPercolation(n: int, open: seq<bool>, rootOf: seq<int>)
    requires n > 0 && |open| == n * n
    requires Sound(n, open, true, rootOf) && Complete(n, open, true, rootOf)
    ensures rootOf[n * n + 1] == rootOf[n * n] <==> PercolatesThrough(n, open)
  {
    if rootOf[n * n + 1] == rootOf[n * n] {
      assert Together(rootOf, n * n, n * n + 1);
      var p :| NodePath(n, open, true, p) && p[0] == n * n && p[|p| - 1] == n * n + 1;
      PercolatesAlong(n, open, p);
    }
    if PercolatesThrough(n, open) {
      var t, b :| 0 <= t < |open| && 0 <= b < |open| && RowOf(n, t) == 0 && RowOf(n, b) == n - 1
                  && Linked(n, open, t, b);
      LinkedEndsOpen(n, open, t, b);
      LinkedSameComponent(n, open, rootOf, t, b);
      assert TopCell(n, open, t) && BottomCell(n, open, b);
    }
  }

  /**
   * Backwash, the reason for a second forest: on a 3-by-3 grid whose first column and
   * bottom-right cell are open, the graph with a bottom node leads from the bottom-right cell
   * to the top node through the bottom node, yet that cell is not full. A forest complete
   * for that graph joins it with the top node (BackwashJoinsTop).
   */
  lemma BackwashExample()
    ensures var open := [true, false, false, true, false, false, true, false, true];
      Reach(3, open, true, 8, 9) && !Full(3, open, 8)
  {
    var open := [true, false, false, true, false, false, true, false, true];
    var p := [8, 10, 6, 3, 0, 9];
    assert Edge(3, open, true, 8, 10) && Edge(3, open, true, 10, 6);
    assert Adjacent(3, 6, 3) && Adjacent(3, 3, 0);
    assert Edge(3, open, true, 0, 9);
    assert NodePath(3, open, true, p);
    var rootOf := seq(9, i => if i == 8 then 8 else 0);
    forall a, b | Adjacent(3, a, b) && a < |open| && b < |open| && a < |rootOf| && b < |rootOf| && open[a] && open[b]
      ensures rootOf[a] == rootOf[b]
    {
      assert a == 0 || a == 3 || a == 6 || a == 8;
      assert b == 0 || b == 3 || b == 6 || b == 8;
    }
    if Full(3, open, 8) {
      var t :| 0 <= t < |open| && RowOf(3, t) == 0 && Linked(3, open, t, 8);
      LinkedSameComponent(3, open, rootOf, t, 8);
      assert false;
    }
  }

  /**
   * The other half of backwash: on the grid of BackwashExample, any labelling complete for
   * the graph with a bottom node puts the bottom-right cell with the top node, so in such a
   * forest being with the top node does not mean being full.
   */
  lemma BackwashJoinsTop(rootOf: seq<int>)
    requires |rootOf| == 11
    requires Complete(3, [true, false, false, true, false, false, true, false, true], true, rootOf)
    ensures rootOf[8] == rootOf[9]
  {
    var open := [true, false, false, true, false, false, true, false, true];
    assert BottomCell(3, open, 8) && BottomCell(3, open, 6);
    assert Adjacent(3, 6, 3) && Adjacent(3, 3, 0);
    assert TopCell(3, open, 0);
  }
}
