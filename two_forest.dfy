/**
 * The grid of Percolation_2UFObjectsSolution_NotAsEfficient.java: no flags at the roots, but
 * two union-find forests over the cells and virtual nodes. The forest uf has n * n + 2
 * elements, the cells, the top node n * n and the bottom node n * n + 1; the forest uf2 has
 * n * n + 1, the cells and the top node only. Every union is done in both forests except the
 * one with the bottom node, so fullness read off uf2 suffers no backwash while percolation is
 * read off uf in one query.
 */
module TwoForestPercolation {
  import opened Outcomes
  import opened Forest
  import opened Grid
  import opened UnionFind
  import opened VirtualNodes

  /** A fresh pair of forests over a closed grid is sound and complete, and uf2 is finer than uf. */
  lemma FreshForests(n: int, open: seq<bool>, rootOf: seq<int>, rootOf2: seq<int>)
    requires n > 0 && open == seq(n * n, i => false)
    requires rootOf == Identity(n * n + 2) && rootOf2 == Identity(n * n + 1)
    ensures Sound(n, open, true, rootOf) && Sound(n, open, false, rootOf2)
    ensures Complete(n, open, true, rootOf) && Complete(n, open, false, rootOf2)
    ensures Coarser(rootOf2, rootOf)
  {
    IdentitySound(n, open, true);
    IdentitySound(n, open, false);
    ClosedComplete(n, true, rootOf);
    ClosedComplete(n, false, rootOf2);
  }

  /**
   * Joining an open last-row cell with the bottom node completes uf, the forest with both
   * virtual nodes, when every other edge was joined.
   */
  lemma BottomStep(n: int, open: seq<bool>, rootOf: seq<int>, id: int, rootOf2: seq<int>)
    requires n > 0 && |open| == n * n && 0 <= id < n * n && |rootOf| == n * n + 2
    requires NeighborsJoined(n, open, rootOf) && TopJoinedAwayFrom(n, open, rootOf, -1)
    requires BottomJoinedAwayFrom(n, open, rootOf, id)
    requires Merged(rootOf, rootOf2, id, n * n + 1)
    ensures Complete(n, open, true, rootOf2) && Coarser(rootOf, rootOf2)
  {
    MergedIsCoarser(rootOf, rootOf2, id, n * n + 1);
    CoarserKeepsNeighborJoins(n, open, rootOf, rootOf2);
    CoarserKeepsVirtualJoins(n, open, rootOf, rootOf2, -1);
    CoarserKeepsVirtualJoins(n, open, rootOf, rootOf2, id);
    BottomJoinedAtLast(n, open, rootOf2, id);
  }

  class Percolation {
    /** The number of rows, which is also the number of columns. */
    const n: int
    const nTimesN: int
    const topNodeIndex: int
    const bottomNodeIndex: int
    /** The open state of the cells; its last two entries, for the virtual nodes, stay unused. */
    const grid: array<bool>
    /** The forest over the cells, the top node and the bottom node. */
    const uf: WeightedQuickUnionUF
    /** The forest over the cells and the top node. */
    const uf2: WeightedQuickUnionUF

    /** The objects that make up the grid. */
    ghost const Repr: set<object>

    /** The open state of the n * n cells, the first n * n entries of grid. */
    ghost var cells: seq<bool>

    /**
     * The state between two calls of open, save that the forests may not yet join the edges
     * of the cell being opened: both forests are sound, and uf2 is finer than uf.
     */
    ghost predicate Inner()
      reads this, Repr
    {
      && Repr == {this, grid, uf, uf.parent, uf.size, uf2, uf2.parent, uf2.size}
      && n > 0 && nTimesN == n * n && topNodeIndex == nTimesN && bottomNodeIndex == nTimesN + 1
      && grid.Length == nTimesN + 2
      && |cells| == nTimesN && (forall k :: 0 <= k < nTimesN ==> grid[k] == cells[k])
      && uf != uf2 && uf.parent != uf2.parent && uf.parent != uf2.size && uf.size != uf2.parent && uf.size != uf2.size
      && uf.Valid() && uf2.Valid()
      && uf.parent.Length == nTimesN + 2 && uf2.parent.Length == nTimesN + 1
      && Sound(n, cells, true, uf.rootOf)
      && Sound(n, cells, false, uf2.rootOf)
      && Coarser(uf2.rootOf, uf.rootOf)
    }

    /** Between two calls: both forests also join the two ends of every edge of their graph. */
    ghost predicate Valid()
      reads this, Repr
    {
      && Inner()
      && Complete(n, cells, true, uf.rootOf)
      && Complete(n, cells, false, uf2.rootOf)
    }

    /** The coordinates (row, column) of the open cells. */
    ghost function OpenedSites(): set<(int, int)>
      requires n > 0 && |cells| == n * n
      reads this
    {
      Sites(n, cells)
    }

    /** An n-by-n grid with every cell closed. */
    constructor (N: int)
      requires N > 0
      ensures Valid() && fresh(Repr)
      ensures n == N && OpenedSites() == {}
    {
      var nn := N * N;
      MulAtLeast(N, N);
      cells := seq(nn, _ => false);
      n, nTimesN, topNodeIndex, bottomNodeIndex := N, nn, nn, nn + 1;
      var g := new bool[nn + 2](_ => false);
      var forest := new WeightedQuickUnionUF(nn + 2);
      var forest2 := new WeightedQuickUnionUF(nn + 1);
      grid, uf, uf2 := g, forest, forest2;
      Repr := {this, g, forest, forest.parent, forest.size, forest2, forest2.parent, forest2.size};
      new;
      FreshForests(N, cells, uf.rootOf, uf2.rootOf);
    }

    /** A grid of N rows, or InvalidArgument when N is not positive. */
    static method Create(N: int) returns (r: Result<Percolation>)
      ensures r.Err? <==> N <= 0
      ensures r.Err? ==> r.error == InvalidArgument
      ensures r.Ok? ==> && fresh(r.value) && fresh(r.value.Repr) && r.value.Valid()
                        && r.value.n == N && r.value.OpenedSites() == {}
    {
      if N <= 0 {
        return Err(InvalidArgument);
      }
      var p := new Percolation(N);
      return Ok(p);
    }

    /** Whether x is a valid row or column number of this grid. */
    predicate WithinRange(x: int)
      reads this
    {
      WithinPrescribedRange(n, x)
    }

    /** Joins a and b, two ends of an edge that does not involve the bottom node, in both forests. */
    method UnionBoth(a: int, b: int)
      requires Inner() && 0 <= a < nTimesN + 1 && 0 <= b < nTimesN + 1 && Edge(n, cells, false, a, b)
      modifies uf, uf.parent, uf.size, uf2, uf2.parent, uf2.size
      ensures Inner()
      ensures Merged(old(uf.rootOf), uf.rootOf, a, b) && Merged(old(uf2.rootOf), uf2.rootOf, a, b)
    {
      var _ := uf.Union(a, b);
      var _ := uf2.Union(a, b);
      ReachEdge(n, cells, true, a, b);
      ReachEdge(n, cells, false, a, b);
      MergeKeepsSound(n, cells, true, old(uf.rootOf), uf.rootOf, a, b);
      MergeKeepsSound(n, cells, false, old(uf2.rootOf), uf2.rootOf, a, b);
      MergedKeepsCoarser(old(uf2.rootOf), uf2.rootOf, old(uf.rootOf), uf.rootOf, a, b);
    }

    /**
     * One of open's four neighbour steps: when the neighbour exists and is open, it is joined
     * with the cell just opened in both forests; the joins made before are kept.
     */
    method LinkIfOpen(iD: int, neighbor: Option<int>, ghost done: seq<Option<int>>)
      requires Inner() && 0 <= iD < nTimesN && grid[iD]
      requires neighbor.Some? ==> Adjacent(n, iD, neighbor.value)
      requires CompleteAwayFrom(n, cells, true, uf.rootOf, iD)
      requires CompleteAwayFrom(n, cells, false, uf2.rootOf, iD)
      requires forall nb {:trigger JoinedIfOpen(cells, uf.rootOf, iD, nb)} ::
        nb in done ==> JoinedIfOpen(cells, uf.rootOf, iD, nb)
      requires forall nb {:trigger JoinedIfOpen(cells, uf2.rootOf, iD, nb)} ::
        nb in done ==> JoinedIfOpen(cells, uf2.rootOf, iD, nb)
      modifies uf, uf.parent, uf.size, uf2, uf2.parent, uf2.size
      ensures Inner()
      ensures CompleteAwayFrom(n, cells, true, uf.rootOf, iD)
      ensures CompleteAwayFrom(n, cells, false, uf2.rootOf, iD)
      ensures forall nb {:trigger JoinedIfOpen(cells, uf.rootOf, iD, nb)} ::
        nb in done ==> JoinedIfOpen(cells, uf.rootOf, iD, nb)
      ensures forall nb {:trigger JoinedIfOpen(cells, uf2.rootOf, iD, nb)} ::
        nb in done ==> JoinedIfOpen(cells, uf2.rootOf, iD, nb)
      ensures JoinedIfOpen(cells, uf.rootOf, iD, neighbor) && JoinedIfOpen(cells, uf2.rootOf, iD, neighbor)
      ensures Coarser(old(uf.rootOf), uf.rootOf) && Coarser(old(uf2.rootOf), uf2.rootOf)
    {
      ghost var open, before, before2 := cells, uf.rootOf, uf2.rootOf;
      if neighbor.Some? && grid[neighbor.value] {
        UnionBoth(iD, neighbor.value);
        MergeKeepsCompleteAway(n, open, true, before, uf.rootOf, iD, iD, neighbor.value, done);
        MergeKeepsCompleteAway(n, open, false, before2, uf2.rootOf, iD, iD, neighbor.value, done);
      }
    }

    /** The first step of open: marks the cell open. */
    method MarkOpen(i: int, j: int, iD: int)
      requires Valid() && WithinRange(i) && WithinRange(j) && iD == (i - 1) * n + (j - 1)
      modifies this, grid
      ensures Inner() && iD == Index(n, i, j)
      ensures cells == old(cells)[iD := true]
      ensures CompleteAwayFrom(n, cells, true, uf.rootOf, iD)
      ensures CompleteAwayFrom(n, cells, false, uf2.rootOf, iD)
      ensures OpenedSites() == old(OpenedSites()) + {(i, j)}
    {
      assert iD == Index(n, i, j);
      grid[iD] := true;
      cells := cells[iD := true];
      OpenKeepsSound(n, old(cells), true, uf.rootOf, iD);
      OpenKeepsSound(n, old(cells), false, uf2.rootOf, iD);
      OpenKeepsJoins(n, old(cells), true, uf.rootOf, iD);
      OpenKeepsJoins(n, old(cells), false, uf2.rootOf, iD);
      SitesGrow(n, old(cells), i, j);
    }

    /**
     * The second step of open: joins the cell just opened with each of its open neighbours,
     * below, above, to the left and to the right, in both forests.
     */
    method JoinNeighbors(iD: int, jIndex: int)
      requires Inner() && 0 <= iD < nTimesN && grid[iD] && jIndex == ColOf(n, iD)
      requires CompleteAwayFrom(n, cells, true, uf.rootOf, iD)
      requires CompleteAwayFrom(n, cells, false, uf2.rootOf, iD)
      modifies uf, uf.parent, uf.size, uf2, uf2.parent, uf2.size
      ensures Inner()
      ensures NeighborsJoined(n, cells, uf.rootOf) && NeighborsJoined(n, cells, uf2.rootOf)
      ensures TopJoinedAwayFrom(n, cells, uf.rootOf, iD) && TopJoinedAwayFrom(n, cells, uf2.rootOf, iD)
      ensures BottomJoinedAwayFrom(n, cells, uf.rootOf, iD)
      ensures Coarser(old(uf.rootOf), uf.rootOf)
    {
      ghost var open, rootOf0 := cells, uf.rootOf;
      var south := SouthNeighbor(n, iD);
      LinkIfOpen(iD, south, []);
      ghost var rootOf1 := uf.rootOf;
      var north := NorthNeighbor(n, iD);
      LinkIfOpen(iD, north, [south]);
      CoarserTrans(rootOf0, rootOf1, uf.rootOf);
      rootOf1 := uf.rootOf;
      var west := WestNeighbor(n, jIndex, iD);
      LinkIfOpen(iD, west, [south, north]);
      CoarserTrans(rootOf0, rootOf1, uf.rootOf);
      rootOf1 := uf.rootOf;
      var east := EastNeighbor(n, jIndex, iD);
      LinkIfOpen(iD, east, [south, north, west]);
      CoarserTrans(rootOf0, rootOf1, uf.rootOf);
      assert JoinedIfOpen(open, uf.rootOf, iD, south) && JoinedIfOpen(open, uf.rootOf, iD, north);
      assert JoinedIfOpen(open, uf.rootOf, iD, west);
      assert JoinedIfOpen(open, uf2.rootOf, iD, south) && JoinedIfOpen(open, uf2.rootOf, iD, north);
      assert JoinedIfOpen(open, uf2.rootOf, iD, west);
      FinishJoins(n, open, uf.rootOf, iD);
      FinishJoins(n, open, uf2.rootOf, iD);
    }

    /** The third step of open: a cell of the first row is joined with the top node in both forests. */
    method JoinTop(iD: int, iIndex: int)
      requires Inner() && 0 <= iD < nTimesN && grid[iD] && iIndex == RowOf(n, iD)
      requires NeighborsJoined(n, cells, uf.rootOf) && NeighborsJoined(n, cells, uf2.rootOf)
      requires TopJoinedAwayFrom(n, cells, uf.rootOf, iD) && TopJoinedAwayFrom(n, cells, uf2.rootOf, iD)
      requires BottomJoinedAwayFrom(n, cells, uf.rootOf, iD)
      modifies uf, uf.parent, uf.size, uf2, uf2.parent, uf2.size
      ensures Inner()
      ensures NeighborsJoined(n, cells, uf.rootOf) && NeighborsJoined(n, cells, uf2.rootOf)
      ensures TopJoinedAwayFrom(n, cells, uf.rootOf, -1) && TopJoinedAwayFrom(n, cells, uf2.rootOf, -1)
      ensures BottomJoinedAwayFrom(n, cells, uf.rootOf, iD)
      ensures Coarser(old(uf.rootOf), uf.rootOf)
    {
      ghost var open, before, before2 := cells, uf.rootOf, uf2.rootOf;
      if iIndex == 0 {
        assert TopCell(n, open, iD);
        UnionBoth(iD, topNodeIndex);
        MergedIsCoarser(before, uf.rootOf, iD, topNodeIndex);
        MergedIsCoarser(before2, uf2.rootOf, iD, topNodeIndex);
        CoarserKeepsNeighborJoins(n, open, before, uf.rootOf);
        CoarserKeepsNeighborJoins(n, open, before2, uf2.rootOf);
        CoarserKeepsVirtualJoins(n, open, before, uf.rootOf, iD);
        CoarserKeepsVirtualJoins(n, open, before2, uf2.rootOf, iD);
      }
      TopJoinedAtLast(n, open, uf.rootOf, iD);
      TopJoinedAtLast(n, open, uf2.rootOf, iD);
    }

    /** Joins cell iD, an open cell of the last row, with the bottom node in uf alone. */
    method UnionBottom(iD: int)
      requires Inner() && 0 <= iD < nTimesN && grid[iD] && RowOf(n, iD) == n - 1
      modifies uf, uf.parent, uf.size
      ensures Inner()
      ensures Merged(old(uf.rootOf), uf.rootOf, iD, bottomNodeIndex)
    {
      assert BottomCell(n, cells, iD);
      assert Edge(n, cells, true, iD, bottomNodeIndex);
      ReachEdge(n, cells, true, iD, bottomNodeIndex);
      var _ := uf.Union(iD, bottomNodeIndex);
      MergeKeepsSound(n, cells, true, old(uf.rootOf), uf.rootOf, iD, bottomNodeIndex);
      MergedIsCoarser(old(uf.rootOf), uf.rootOf, iD, bottomNodeIndex);
      CoarserTrans(uf2.rootOf, old(uf.rootOf), uf.rootOf);
    }

    /** The last step of open: a cell of the last row is joined with the bottom node in uf alone. */
    method JoinBottom(iD: int, iIndex: int)
      requires Inner() && 0 <= iD < nTimesN && grid[iD] && iIndex == RowOf(n, iD)
      requires NeighborsJoined(n, cells, uf.rootOf) && NeighborsJoined(n, cells, uf2.rootOf)
      requires TopJoinedAwayFrom(n, cells, uf.rootOf, -1) && TopJoinedAwayFrom(n, cells, uf2.rootOf, -1)
      requires BottomJoinedAwayFrom(n, cells, uf.rootOf, iD)
      modifies uf, uf.parent, uf.size
      ensures Valid()
      ensures Coarser(old(uf.rootOf), uf.rootOf)
    {
      if iIndex == n - 1 {
        ghost var open, before := cells, uf.rootOf;
        UnionBottom(iD);
        BottomStep(n, open, before, iD, uf.rootOf);
      } else {
        BottomJoinedAtLast(n, cells, uf.rootOf, iD);
      }
    }

    /**
     * Opens the cell at row i, column j and joins it, in both forests, with each open
     * neighbour and, in the first row, with the top node; in the last row it is joined with
     * the bottom node in uf alone. IndexOutOfRange, with nothing changed, when a coordinate
     * is off the grid.
     */
    method Open(i: int, j: int) returns (o: Outcome)
      requires Valid()
      modifies Repr
      ensures Valid()
      ensures o == if WithinRange(i) && WithinRange(j) then Pass else Fail(IndexOutOfRange)
      ensures o.Fail? ==> cells == old(cells) && uf.rootOf == old(uf.rootOf) && uf2.rootOf == old(uf2.rootOf)
      ensures o.Pass? ==> cells == old(cells)[Index(n, i, j) := true]
      ensures OpenedSites() == old(OpenedSites()) + (if o.Pass? then {(i, j)} else {})
      ensures Coarser(uf2.rootOf, uf.rootOf)
      ensures Coarser(old(uf.rootOf), uf.rootOf)
    {
      if !(WithinRange(i) && WithinRange(j)) {
        return Fail(IndexOutOfRange);
      }
      var iIndex, jIndex := i - 1, j - 1;
      var iD := iIndex * n + jIndex;
      MarkOpen(i, j, iD);
      ghost var before := uf.rootOf;
      JoinNeighbors(iD, jIndex);
      ghost var middle := uf.rootOf;
      JoinTop(iD, iIndex);
      CoarserTrans(before, middle, uf.rootOf);
      middle := uf.rootOf;
      JoinBottom(iD, iIndex);
      CoarserTrans(before, middle, uf.rootOf);
      o := Pass;
    }

    /**
     * Whether the cell at row i, column j is open; IndexOutOfRange when a coordinate is off
     * the grid.
     */
    function IsOpen(i: int, j: int): (r: Result<bool>)
      requires Valid()
      reads Repr
      ensures r.Err? <==> !(WithinRange(i) && WithinRange(j))
      ensures r.Err? ==> r.error == IndexOutOfRange
      ensures r.Ok? ==> (r.value <==> (i, j) in OpenedSites())
    {
      if !(WithinRange(i) && WithinRange(j)) then Err(IndexOutOfRange)
      else
        var iD := (i - 1) * n + (j - 1);
        assert iD == Index(n, i, j);
        Ok(grid[iD])
    }

    /**
     * Whether the cell at row i, column j is full: false for a closed cell, and otherwise
     * whether uf2, which has no bottom node and so no backwash, joins it with the top node.
     */
    method IsFull(i: int, j: int) returns (r: Result<bool>)
      requires Valid()
      modifies uf2.parent
      ensures Valid()
      ensures r.Err? <==> !(WithinRange(i) && WithinRange(j))
      ensures r.Err? ==> r.error == IndexOutOfRange
      ensures r.Ok? ==> (r.value <==> Full(n, cells, Index(n, i, j)))
      ensures r.Ok? && r.value ==> (i, j) in OpenedSites()
    {
      if !(WithinRange(i) && WithinRange(j)) {
        return Err(IndexOutOfRange);
      }
      var iIndex, jIndex := i - 1, j - 1;
      var iD := iIndex * n + jIndex;
      assert iD == Index(n, i, j);
      if grid[iD] == false {
        return Ok(false);
      }
      var joined := uf2.Connected(iD, topNodeIndex);
      TopJoinIsFull(n, cells, uf2.rootOf, iD);
      if joined.value {
        return Ok(true);
      }
      return Ok(false);
    }

    /** Whether uf joins the bottom node with the top node: exactly when open cells lead from the first row to the last. */
    method Percolates() returns (p: bool)
      requires Valid()
      modifies uf.parent
      ensures Valid()
      ensures p <==> PercolatesThrough(n, cells)
    {
      var joined := uf.Connected(bottomNodeIndex, topNodeIndex);
      p := joined.value;
      BottomJoinIsPercolation(n, cells, uf.rootOf);
    }
  }
}
