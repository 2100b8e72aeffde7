/**
 * Addressing of an n-by-n grid: 1-based coordinates (row, column), the flat 0-based index
 * (row - 1) * n + (column - 1), and the north, south, west and east neighbours of a cell.
 * Also what the grid means independently of any forest (walks through open cells, full
 * cells, percolation) and how a labelling of the cells into components can join every
 * pair of open neighbours.
 */
module Grid {
  import opened Outcomes
  import opened Forest

  /** Whether x is a valid 1-based row or column of an n-by-n grid. */
  predicate WithinPrescribedRange(n: int, x: int)
  {
    1 <= x <= n
  }

  /** A positive multiple of n is at least n. */
  lemma {:induction false} MulAtLeast(d: int, n: int)
    requires d >= 1 && n >= 1
    ensures d * n >= n
    decreases d
  {
    if d > 1 {
      MulAtLeast(d - 1, n);
      assert d * n == (d - 1) * n + n;
    }
  }

  /** Dividing q * n + r by n gives back q and r. */
  lemma DivMod(n: int, q: int, r: int)
    requires n > 0 && 0 <= r < n
    ensures (q * n + r) / n == q && (q * n + r) % n == r
  {
    var k := q * n + r;
    var q2, r2 := k / n, k % n;
    assert k == q2 * n + r2;
    assert (q - q2) * n == r2 - r by {
      assert (q - q2) * n == q * n - q2 * n;
    }
    if q > q2 {
      MulAtLeast(q - q2, n);
    } else if q < q2 {
      MulAtLeast(q2 - q, n);
    }
  }

  /** Multiplying by a non-negative n keeps the order of a and b. */
  lemma {:induction false} MulMono(a: int, b: int, n: int)
    requires 0 <= a <= b && n >= 0
    ensures a * n <= b * n
    decreases b - a
  {
    if a < b {
      MulMono(a, b - 1, n);
      assert b * n == (b - 1) * n + n;
    }
  }

  /** The flat index of the cell at row i, column j; row and column come back by / and %. */
  function Index(n: int, i: int, j: int): (id: int)
    requires WithinPrescribedRange(n, i) && WithinPrescribedRange(n, j)
    ensures 0 <= id < n * n
    ensures id / n == i - 1 && id % n == j - 1
  {
    DivMod(n, i - 1, j - 1);
    MulMono(i, n, n);
    assert i * n == (i - 1) * n + n;
    (i - 1) * n + (j - 1)
  }

  /** Every flat index of the grid is the index of exactly one in-range coordinate pair. */
  lemma IndexOnto(n: int, id: int)
    requires n > 0 && 0 <= id < n * n
    ensures WithinPrescribedRange(n, id / n + 1) && WithinPrescribedRange(n, id % n + 1)
    ensures Index(n, id / n + 1, id % n + 1) == id
  {
    assert id / n < n by {
      if id / n >= n {
        MulAtLeast(id / n - n + 1, n);
      }
    }
  }

  /** Distinct coordinate pairs have distinct flat indices. */
  lemma IndexInjective(n: int, i: int, j: int, i2: int, j2: int)
    requires WithinPrescribedRange(n, i) && WithinPrescribedRange(n, j)
    requires WithinPrescribedRange(n, i2) && WithinPrescribedRange(n, j2)
    requires Index(n, i, j) == Index(n, i2, j2)
    ensures i == i2 && j == j2
  {
  }

  /** The 0-based row of a flat index. */
  function RowOf(n: int, id: int): int
    requires n > 0
  {
    id / n
  }

  /** The 0-based column of a flat index. */
  function ColOf(n: int, id: int): int
    requires n > 0
  {
    id % n
  }

  /** Cells a and b of the grid share a side. */
  ghost predicate Adjacent(n: int, a: int, b: int)
  {
    && n > 0 && 0 <= a < n * n && 0 <= b < n * n
    && (|| (RowOf(n, a) == RowOf(n, b) && (ColOf(n, a) == ColOf(n, b) + 1 || ColOf(n, b) == ColOf(n, a) + 1))
        || (ColOf(n, a) == ColOf(n, b) && (RowOf(n, a) == RowOf(n, b) + 1 || RowOf(n, b) == RowOf(n, a) + 1)))
  }

  /** id + n stays on the grid exactly when id is above the last row, one row further down. */
  lemma SouthArith(n: int, id: int)
    requires n > 0 && 0 <= id < n * n
    ensures (id + n < n * n) <==> id / n < n - 1
    ensures (id + n) / n == id / n + 1 && (id + n) % n == id % n
  {
    DivMod(n, id / n + 1, id % n);
    assert id + n == (id / n + 1) * n + id % n;
    if id / n < n - 1 {
      assert (id / n + 1) * n <= (n - 1) * n;
    } else {
      assert (id / n + 1) * n >= n * n;
    }
  }

  /** id - n stays on the grid exactly when id is below the first row, one row further up. */
  lemma NorthArith(n: int, id: int)
    requires n > 0 && 0 <= id < n * n
    ensures (id - n >= 0) <==> id / n > 0
    ensures (id - n) / n == id / n - 1 && (id - n) % n == id % n
  {
    DivMod(n, id / n - 1, id % n);
    assert id - n == (id / n - 1) * n + id % n;
    if id / n > 0 {
      assert (id / n - 1) * n >= 0;
    }
  }

  /** Moving one step within a row changes the column by one and keeps the row. */
  lemma SideArith(n: int, id: int)
    requires n > 0 && 0 <= id < n * n
    ensures id % n > 0 ==> (id - 1) / n == id / n && (id - 1) % n == id % n - 1
    ensures id % n < n - 1 ==> (id + 1) / n == id / n && (id + 1) % n == id % n + 1 && id + 1 < n * n
  {
    assert id == (id / n) * n + id % n;
    if id % n > 0 {
      DivMod(n, id / n, id % n - 1);
    }
    if id % n < n - 1 {
      DivMod(n, id / n, id % n + 1);
      IndexOnto(n, id);
      if id + 1 >= n * n {
        assert id + 1 == n * n;
        DivMod(n, n, 0);
      }
    }
  }

  /** The cell below id, if id is not in the last row. */
  function SouthNeighbor(n: int, id: int): (r: Option<int>)
    requires n > 0 && 0 <= id < n * n
    ensures r.Some? <==> RowOf(n, id) < n - 1
    ensures r.Some? ==> && Adjacent(n, id, r.value)
                        && RowOf(n, r.value) == RowOf(n, id) + 1 && ColOf(n, r.value) == ColOf(n, id)
  {
    SouthArith(n, id);
    if id + n < n * n then Some(id + n) else None
  }

  /** The cell above id, if id is not in the first row. */
  function NorthNeighbor(n: int, id: int): (r: Option<int>)
    requires n > 0 && 0 <= id < n * n
    ensures r.Some? <==> RowOf(n, id) > 0
    ensures r.Some? ==> && Adjacent(n, id, r.value)
                        && RowOf(n, r.value) == RowOf(n, id) - 1 && ColOf(n, r.value) == ColOf(n, id)
  {
    NorthArith(n, id);
    if id - n >= 0 then Some(id - n) else None
  }

  /** The cell left of id (whose column is jIndex), if id is not in the first column. */
  function WestNeighbor(n: int, jIndex: int, id: int): (r: Option<int>)
    requires n > 0 && 0 <= id < n * n && jIndex == ColOf(n, id)
    ensures r.Some? <==> ColOf(n, id) > 0
    ensures r.Some? ==> && Adjacent(n, id, r.value)
                        && RowOf(n, r.value) == RowOf(n, id) && ColOf(n, r.value) == ColOf(n, id) - 1
  {
    SideArith(n, id);
    if jIndex == 0 then None else Some(id - 1)
  }

  /** The cell right of id (whose column is jIndex), if id is not in the last column. */
  function EastNeighbor(n: int, jIndex: int, id: int): (r: Option<int>)
    requires n > 0 && 0 <= id < n * n && jIndex == ColOf(n, id)
    ensures r.Some? <==> ColOf(n, id) < n - 1
    ensures r.Some? ==> && Adjacent(n, id, r.value)
                        && RowOf(n, r.value) == RowOf(n, id) && ColOf(n, r.value) == ColOf(n, id) + 1
  {
    SideArith(n, id);
    if jIndex == n - 1 then None else Some(id + 1)
  }

  /** Two cells with the same row and the same column are the same cell. */
  lemma SameCell(n: int, x: int, y: int)
    requires n > 0 && RowOf(n, x) == RowOf(n, y) && ColOf(n, x) == ColOf(n, y)
    ensures x == y
  {
    assert x == RowOf(n, x) * n + ColOf(n, x);
    assert y == RowOf(n, y) * n + ColOf(n, y);
  }

  /** Every cell sharing a side with id is one of its four neighbours. */
  lemma NeighborsComplete(n: int, id: int, b: int)
    requires Adjacent(n, id, b)
    ensures || SouthNeighbor(n, id) == Some(b) || NorthNeighbor(n, id) == Some(b)
            || WestNeighbor(n, ColOf(n, id), id) == Some(b) || EastNeighbor(n, ColOf(n, id), id) == Some(b)
  {
    IndexOnto(n, id);
    IndexOnto(n, b);
    var r, c := RowOf(n, id), ColOf(n, id);
    if RowOf(n, b) == r + 1 && ColOf(n, b) == c {
      SameCell(n, b, SouthNeighbor(n, id).value);
    } else if RowOf(n, b) + 1 == r && ColOf(n, b) == c {
      SameCell(n, b, NorthNeighbor(n, id).value);
    } else if ColOf(n, b) + 1 == c {
      SameCell(n, b, WestNeighbor(n, c, id).value);
    } else {
      SameCell(n, b, EastNeighbor(n, c, id).value);
    }
  }

  /** p is a nonempty walk through open cells, each step to a cell sharing a side. */
  ghost predicate IsPath(n: int, open: seq<bool>, p: seq<int>)
  {
    && |p| >= 1
    && (forall k :: 0 <= k < |p| ==> 0 <= p[k] < |open| && open[p[k]])
    && (forall k :: 0 <= k < |p| - 1 ==> Adjacent(n, p[k], p[k + 1]))
  }

  /** Open cells a and b are joined by a walk through open cells. */
  ghost predicate Linked(n: int, open: seq<bool>, a: int, b: int)
  {
    exists p {:trigger IsPath(n, open, p)} :: IsPath(n, open, p) && p[0] == a && p[|p| - 1] == b
  }

  /** Cell c is full: open cells lead to it from an open cell of the first row. */
  ghost predicate Full(n: int, open: seq<bool>, c: int)
    requires n > 0
  {
    exists t :: 0 <= t < |open| && RowOf(n, t) == 0 && Linked(n, open, t, c)
  }

  /** The grid percolates: open cells lead from the first row to the last. */
  ghost predicate PercolatesThrough(n: int, open: seq<bool>)
    requires n > 0
  {
    exists t, b {:trigger Linked(n, open, t, b)} ::
      0 <= t < |open| && 0 <= b < |open| && RowOf(n, t) == 0 && RowOf(n, b) == n - 1 && Linked(n, open, t, b)
  }

  /** Every two open cells sharing a side are in one component of the labelling rootOf. */
  ghost predicate NeighborsJoined(n: int, open: seq<bool>, rootOf: seq<int>)
  {
    forall a, b {:trigger Adjacent(n, a, b)} ::
      (Adjacent(n, a, b) && a < |open| && b < |open| && a < |rootOf| && b < |rootOf| && open[a] && open[b])
      ==> rootOf[a] == rootOf[b]
  }

  /** An open cell is linked to itself. */
  lemma LinkedSelf(n: int, open: seq<bool>, a: int)
    requires 0 <= a < |open| && open[a]
    ensures Linked(n, open, a, a)
  {
    assert IsPath(n, open, [a]);
  }

  /** Two open cells sharing a side are linked. */
  lemma LinkedStep(n: int, open: seq<bool>, a: int, b: int)
    requires Adjacent(n, a, b) && 0 <= a < |open| && 0 <= b < |open| && open[a] && open[b]
    ensures Linked(n, open, a, b)
  {
    assert IsPath(n, open, [a, b]);
  }

  /** Walks that meet can be joined. */
  lemma LinkedTrans(n: int, open: seq<bool>, a: int, b: int, c: int)
    requires Linked(n, open, a, b) && Linked(n, open, b, c)
    ensures Linked(n, open, a, c)
  {
    var p :| IsPath(n, open, p) && p[0] == a && p[|p| - 1] == b;
    var q :| IsPath(n, open, q) && q[0] == b && q[|q| - 1] == c;
    var pq := p + q[1..];
    assert forall k :: 0 <= k < |pq| ==> pq[k] == (if k < |p| then p[k] else q[k - |p| + 1]);
    assert forall k :: 0 <= k < |pq| - 1 ==> Adjacent(n, pq[k], pq[k + 1]) by {
      forall k | 0 <= k < |pq| - 1 ensures Adjacent(n, pq[k], pq[k + 1]) {
        if k < |p| - 1 {
        } else {
          assert pq[k] == q[k - |p| + 1];
        }
      }
    }
    assert IsPath(n, open, pq);
  }

  /** A walk can be followed backwards. */
  lemma LinkedSym(n: int, open: seq<bool>, a: int, b: int)
    requires Linked(n, open, a, b)
    ensures Linked(n, open, b, a)
  {
    var p :| IsPath(n, open, p) && p[0] == a && p[|p| - 1] == b;
    var q := seq(|p|, k requires 0 <= k < |p| => p[|p| - 1 - k]);
    forall k | 0 <= k < |q| - 1 ensures Adjacent(n, q[k], q[k + 1]) {
      assert Adjacent(n, p[|p| - 2 - k], p[|p| - 1 - k]);
    }
    assert IsPath(n, open, q);
  }

  /** Opening more cells keeps every walk. */
  lemma LinkedGrows(n: int, open: seq<bool>, open2: seq<bool>, a: int, b: int)
    requires Linked(n, open, a, b) && |open2| == |open|
    requires forall k :: 0 <= k < |open| && open[k] ==> open2[k]
    ensures Linked(n, open2, a, b)
  {
    var p :| IsPath(n, open, p) && p[0] == a && p[|p| - 1] == b;
    assert IsPath(n, open2, p);
  }

  /** When open neighbours are always joined, a walk never leaves its first cell's component. */
  lemma {:induction false} PathStaysInComponent(n: int, open: seq<bool>, rootOf: seq<int>, p: seq<int>)
    requires NeighborsJoined(n, open, rootOf) && IsPath(n, open, p) && |open| <= |rootOf|
    ensures rootOf[p[0]] == rootOf[p[|p| - 1]]
    decreases |p|
  {
    if |p| > 1 {
      var front := p[..|p| - 1];
      assert IsPath(n, open, front) by {
        assert forall k :: 0 <= k < |front| ==> front[k] == p[k];
      }
      PathStaysInComponent(n, open, rootOf, front);
      assert Adjacent(n, p[|p| - 2], p[|p| - 1]);
    }
  }

  /** Under joined neighbours, linked cells share a component. */
  lemma LinkedSameComponent(n: int, open: seq<bool>, rootOf: seq<int>, a: int, b: int)
    requires NeighborsJoined(n, open, rootOf) && |open| <= |rootOf| && Linked(n, open, a, b)
    ensures rootOf[a] == rootOf[b]
  {
    var p :| IsPath(n, open, p) && p[0] == a && p[|p| - 1] == b;
    PathStaysInComponent(n, open, rootOf, p);
  }

  /** The cells a walk joins are open cells of the grid. */
  lemma LinkedEndsOpen(n: int, open: seq<bool>, a: int, b: int)
    requires Linked(n, open, a, b)
    ensures 0 <= a < |open| && 0 <= b < |open| && open[a] && open[b]
  {
    var p :| IsPath(n, open, p) && p[0] == a && p[|p| - 1] == b;
  }

  /** NeighborsJoined, except perhaps for the pairs that involve cell id. */
  ghost predicate JoinedAwayFrom(n: int, open: seq<bool>, rootOf: seq<int>, id: int)
  {
    forall a, b {:trigger Adjacent(n, a, b)} ::
      (Adjacent(n, a, b) && a < |open| && b < |open| && a < |rootOf| && b < |rootOf| && open[a] && open[b]
       && a != id && b != id)
      ==> rootOf[a] == rootOf[b]
  }

  /** Once id is joined to each of its open neighbours, all open neighbours are joined. */
  lemma JoinedAtLast(n: int, open: seq<bool>, rootOf: seq<int>, id: int)
    requires JoinedAwayFrom(n, open, rootOf, id) && |open| == n * n && n * n <= |rootOf|
    requires forall b :: Adjacent(n, id, b) && open[id] && open[b] ==> rootOf[id] == rootOf[b]
    ensures NeighborsJoined(n, open, rootOf)
  {
    forall a, b | Adjacent(n, a, b) && a < |open| && b < |open| && a < |rootOf| && b < |rootOf| && open[a] && open[b]
      ensures rootOf[a] == rootOf[b]
    {
      if b == id {
        assert Adjacent(n, id, a);
      }
    }
  }

  /** A one-cell grid percolates as soon as its cell is open. */
  lemma SingleCellPercolates(open: seq<bool>)
    requires |open| == 1 && open[0]
    ensures PercolatesThrough(1, open)
  {
    LinkedSelf(1, open, 0);
  }

  /** Cell id is joined to neighbour nb in rootOf, if nb exists and is open. */
  ghost predicate JoinedIfOpen(open: seq<bool>, rootOf: seq<int>, id: int, nb: Option<int>)
  {
    nb.Some? && 0 <= nb.value < |open| && nb.value < |rootOf| && 0 <= id < |rootOf| && open[nb.value]
    ==> rootOf[id] == rootOf[nb.value]
  }

  /** Joining two components keeps every pair of open neighbours that was joined joined. */
  lemma MergeKeepsJoins(n: int, open: seq<bool>, rootOf: seq<int>, rootOf2: seq<int>, id: int, a: int, b: int,
                        done: seq<Option<int>>)
    requires 0 <= a < |rootOf| && 0 <= b < |rootOf| && Merged(rootOf, rootOf2, a, b)
    requires JoinedAwayFrom(n, open, rootOf, id)
    requires forall nb {:trigger JoinedIfOpen(open, rootOf, id, nb)} :: nb in done ==> JoinedIfOpen(open, rootOf, id, nb)
    ensures JoinedAwayFrom(n, open, rootOf2, id)
    ensures forall nb {:trigger JoinedIfOpen(open, rootOf2, id, nb)} :: nb in done ==> JoinedIfOpen(open, rootOf2, id, nb)
  {
    MergedIsCoarser(rootOf, rootOf2, a, b);
    forall x, y | && Adjacent(n, x, y) && x < |open| && y < |open| && x < |rootOf2| && y < |rootOf2|
                  && open[x] && open[y] && x != id && y != id
      ensures rootOf2[x] == rootOf2[y]
    {
      assert Together(rootOf, x, y);
    }
    forall nb | nb in done ensures JoinedIfOpen(open, rootOf2, id, nb) {
      assert JoinedIfOpen(open, rootOf, id, nb);
      if nb.Some? && 0 <= nb.value < |open| && nb.value < |rootOf| && 0 <= id < |rootOf| && open[nb.value] {
        assert Together(rootOf, id, nb.value);
      }
    }
  }

  /** Once id is joined to each of its four neighbours that is open, all open neighbours are joined. */
  lemma FinishJoins(n: int, open: seq<bool>, rootOf: seq<int>, id: int)
    requires n > 0 && |open| == n * n && n * n <= |rootOf| && 0 <= id < n * n
    requires JoinedAwayFrom(n, open, rootOf, id)
    requires JoinedIfOpen(open, rootOf, id, SouthNeighbor(n, id))
    requires JoinedIfOpen(open, rootOf, id, NorthNeighbor(n, id))
    requires JoinedIfOpen(open, rootOf, id, WestNeighbor(n, ColOf(n, id), id))
    requires JoinedIfOpen(open, rootOf, id, EastNeighbor(n, ColOf(n, id), id))
    ensures NeighborsJoined(n, open, rootOf)
  {
    forall b | Adjacent(n, id, b) && open[id] && open[b] ensures rootOf[id] == rootOf[b] {
      NeighborsComplete(n, id, b);
    }
    JoinedAtLast(n, open, rootOf, id);
  }

  /** Opening cells never makes a full cell lose its fullness. */
  lemma FullGrows(n: int, open: seq<bool>, open2: seq<bool>, c: int)
    requires n > 0 && |open2| == |open| && Full(n, open, c)
    requires forall k :: 0 <= k < |open| && open[k] ==> open2[k]
    ensures Full(n, open2, c)
  {
    var t :| 0 <= t < |open| && RowOf(n, t) == 0 && Linked(n, open, t, c);
    LinkedGrows(n, open, open2, t, c);
  }

  /** Opening cells never stops the grid from percolating. */
  lemma PercolationGrows(n: int, open: seq<bool>, open2: seq<bool>)
    requires n > 0 && |open2| == |open| && PercolatesThrough(n, open)
    requires forall k :: 0 <= k < |open| && open[k] ==> open2[k]
    ensures PercolatesThrough(n, open2)
  {
    var t, b :| 0 <= t < |open| && 0 <= b < |open| && RowOf(n, t) == 0 && RowOf(n, b) == n - 1
                && Linked(n, open, t, b);
    LinkedGrows(n, open, open2, t, b);
  }

  /** The coordinates (row, column) of the open cells of an n-by-n grid. */
  ghost function Sites(n: int, open: seq<bool>): (sites: set<(int, int)>)
    requires n > 0 && |open| == n * n
    ensures forall i, j :: (i, j) in sites <==>
      WithinPrescribedRange(n, i) && WithinPrescribedRange(n, j) && open[Index(n, i, j)]
  {
    set i, j | 1 <= i <= n && 1 <= j <= n && open[Index(n, i, j)] :: (i, j)
  }

  /** Opening the cell at (i, j) adds exactly (i, j) to the open coordinates. */
  lemma SitesGrow(n: int, open: seq<bool>, i: int, j: int)
    requires n > 0 && |open| == n * n && WithinPrescribedRange(n, i) && WithinPrescribedRange(n, j)
    ensures Sites(n, open[Index(n, i, j) := true]) == Sites(n, open) + {(i, j)}
  {
    var open2 := open[Index(n, i, j) := true];
    forall c | c in Sites(n, open2) ensures c in Sites(n, open) + {(i, j)} {
      var (a, b) := c;
      if (a, b) != (i, j) && Index(n, a, b) == Index(n, i, j) {
        IndexInjective(n, a, b, i, j);
      }
    }
  }
}
