# Percolation with weighted quick-union, in Dafny

This project models the core of a Java percolation library. An n-by-n grid starts with
every site closed, and sites are opened one at a time. A site is *full* when a walk through
open sites, each step to a site sharing a side, leads to it from an open site of the first
row. The grid *percolates* when such a walk leads from the first row to the last. Both
questions are answered with a weighted quick-union forest.

- `union_find.dfy` (module `UnionFind`): the class `WeightedQuickUnionUF`. It keeps a
  `parent` array and a `size` array and a component count. `find` does path halving.
  `union` hangs the smaller tree below the root of the larger. Two ghost fields carry the
  proof: `rootOf`, the root of every element's component, and `rank`, a measure that falls
  from every element to its parent and bounds the walk of `find`.
- `forest.dfy` (module `Forest`): facts about a forest given as sequences. They cover the
  walk to a root, halving, linking one root below another, sizes at roots and the number
  of roots.
- `grid.dfy` (module `Grid`): 1-based coordinates, the flat index
  `(i - 1) * n + (j - 1)` and the four neighbour computations of `open`. It also defines
  walks through open sites (`Linked`), `Full` and `PercolatesThrough` without reference to
  any forest. These are the specifications the two grid classes are proved against.
- `percolation.dfy` (module `PercolationOneForest`): `Percolation.java`. There is one
  forest over the n * n sites. At each root, two flags record whether the component holds
  an open site of the first row or of the last row. A `percolates` field is set once some
  component holds both.
- `virtual_nodes.dfy` (module `VirtualNodes`): the grid as a graph with a virtual top node
  n * n and, optionally, a virtual bottom node n * n + 1. A labelling is *sound* when it
  only groups nodes the graph connects. It is *complete* when it groups the two ends of
  every edge. For such labellings, being with the top node is fullness when there is no
  bottom node, and the two virtual nodes share a component exactly when the grid
  percolates.
- `two_forest.dfy` (module `TwoForestPercolation`):
  `Percolation_2UFObjectsSolution_NotAsEfficient.java`. It has two forests with virtual
  nodes:
  - `uf`, over the sites, the top node and the bottom node, answers `percolates`;
  - `uf2`, over the sites and the top node only, answers `isFull` without backwash.
- `outcomes.dfy` (module `Outcomes`): the error values that stand for the exceptions the
  Java code throws.

Every public operation of the two grid classes is proved against the grid's own meaning:
- `isFull` returns exactly `Full`;
- `percolates` returns exactly `PercolatesThrough`;
- `isOpen` reports membership in the set of opened sites;
- `open` adds exactly the given site.

The union-find class is proved against its ghost partition:
- `find` returns the root of the element's component and halving changes no component;
- `union` merges exactly the two components;
- `count` is the number of roots.

The class comment of `src/WeightedQuickUnionUF.java` says "without path compression" at
line 18, but `find` redirects each visited element to its grandparent at line 126, which
is path halving. The model follows the code.

## Model

| member | source | states |
|---|---|---|
| UnionFind.WeightedQuickUnionUF.constructor | src/WeightedQuickUnionUF.java:40-66 | N components, each element its own parent with size 1, count N, every element labelled by itself |
| UnionFind.WeightedQuickUnionUF.Count | src/WeightedQuickUnionUF.java:69-75 | the count is the number of roots of the forest, between 1 and N when N >= 1 |
| UnionFind.WeightedQuickUnionUF.Find | src/WeightedQuickUnionUF.java:83-139 | IndexOutOfRange, with nothing changed, exactly when p is out of range; otherwise returns p's root, which is where parent links led from p before the call; halving keeps every element's root and the set of roots |
| UnionFind.WeightedQuickUnionUF.Connected | src/WeightedQuickUnionUF.java:149-151 | IndexOutOfRange exactly when p or q is out of range; otherwise true exactly when p and q share a component; the roots are unchanged |
| UnionFind.WeightedQuickUnionUF.Link | src/WeightedQuickUnionUF.java:167-175 | root loser hangs below root winner, the winner's size becomes the sum of the two, no other size changes, the count drops by one, and the loser's component joins the winner's |
| UnionFind.WeightedQuickUnionUF.Validate | src/WeightedQuickUnionUF.java:134-139 | p names an element exactly when 0 <= p < N, N being the length of the parent array; every operation that returns IndexOutOfRange does so exactly when this fails |
| UnionFind.WeightedQuickUnionUF.Union | src/WeightedQuickUnionUF.java:161-176 | IndexOutOfRange, with partition, sizes and count unchanged, when p or q is out of range; otherwise exactly the components of p and q are merged; if they were already one, no component, size or count changes, though the two finds may still halve paths; else the smaller tree (q's on a tie) hangs below the other root, sizes add up and the count drops by one |
| Forest.RootOfIsWalk | src/WeightedQuickUnionUF.java:86-130 | following parent links from any element reaches the root its label names |
| Forest.LabellingIsUnique | src/WeightedQuickUnionUF.java:86-130 | the parent links determine the labelling: two labellings consistent with the same links are equal |
| Forest.HalvingKeepsRoots | src/WeightedQuickUnionUF.java:126-127 | redirecting an element to its grandparent keeps the forest consistent, keeps the set of roots and the root reached from every element |
| Forest.LinkKeepsConsistent | src/WeightedQuickUnionUF.java:167-174 | hanging one root below another keeps the forest consistent and removes exactly the loser from the roots |
| Forest.LinkKeepsSizes | src/WeightedQuickUnionUF.java:167-174 | after the link, every root's size is still the number of elements in its component |
| Forest.LinkKeepsInvariant | src/WeightedQuickUnionUF.java:161-176 | a link keeps the whole union-find invariant, with the count one lower |
| Forest.RelinkMembers | src/WeightedQuickUnionUF.java:167-174 | after a link the winner's component is the union of the two disjoint old ones, the loser's is empty, and every other is unchanged |
| Forest.RelinkMerges | src/WeightedQuickUnionUF.java:161-176 | relinking the roots of a and b merges exactly the components of a and b |
| Forest.MergedSame | src/WeightedQuickUnionUF.java:164 | a union of two elements already together changes no component |
| Forest.MergedIsCoarser | src/WeightedQuickUnionUF.java:161-176 | a union never separates two elements and puts its two arguments together |
| Forest.FreshForest | src/WeightedQuickUnionUF.java:61-65 | the fresh forest is consistent, has N roots and singleton components of size 1 |
| Forest.RootsBounded | src/WeightedQuickUnionUF.java:69-72 | a consistent forest of N >= 1 elements has between 1 and N roots |
| Grid.WithinPrescribedRange | src/Percolation.java:51-53 | x is a row or column of an n-by-n grid exactly when 1 <= x <= n |
| Grid.Index | src/Percolation.java:70-85 | the flat index of an in-range (i, j) lies in 0 .. n*n-1, and / and % by n give back i - 1 and j - 1 |
| Grid.IndexOnto | src/Percolation.java:73-85 | every flat index of the grid is the index of an in-range coordinate pair |
| Grid.IndexInjective | src/Percolation.java:73-85 | distinct coordinate pairs have distinct flat indices |
| Grid.SouthNeighbor | src/Percolation.java:96-97 | a south neighbour exists exactly for a site above the last row, and it is the adjacent site one row down |
| Grid.NorthNeighbor | src/Percolation.java:102-103 | a north neighbour exists exactly for a site below the first row, and it is the adjacent site one row up |
| Grid.WestNeighbor | src/Percolation.java:108-109 | a west neighbour exists exactly for a site right of the first column, and it is the adjacent site one column left |
| Grid.EastNeighbor | src/Percolation.java:114-115 | an east neighbour exists exactly for a site left of the last column, and it is the adjacent site one column right |
| Grid.NeighborsComplete | src/Percolation.java:94-117 | every site sharing a side with a site is one of its four neighbours |
| Grid.LinkedStep | src/Percolation.java:4-5 | two open sites sharing a side are connected |
| Grid.LinkedTrans | src/Percolation.java:4-5 | connection through open sites is transitive |
| Grid.LinkedSym | src/Percolation.java:4-5 | connection through open sites is symmetric |
| Grid.LinkedGrows | src/Percolation.java:4-5 | opening more sites keeps every connection |
| Grid.LinkedEndsOpen | src/Percolation.java:4-5 | only open sites are connected |
| Grid.PathStaysInComponent | src/Percolation.java:94-117 | when open neighbours always share a component, a walk through open sites never leaves its first site's component |
| Grid.LinkedSameComponent | src/Percolation.java:94-117 | when open neighbours share components, connected sites share a component |
| Grid.JoinedAtLast | src/Percolation.java:94-117 | once the opened site shares a component with each open site beside it, every two open neighbours of the grid do |
| Grid.MergeKeepsJoins | src/Percolation.java:94-117 | a union keeps every pair of open neighbours that shared a component together |
| Grid.FinishJoins | src/Percolation.java:94-117 | after the four neighbour steps of open, every two open neighbours share a component |
| Grid.FullGrows | src/Percolation.java:189-195 | opening sites never makes a full site lose fullness |
| Grid.PercolationGrows | src/Percolation.java:19 | opening sites never stops the grid from percolating, so percolation is sticky |
| Grid.SingleCellPercolates | src/Percolation.java:88 | a 1-by-1 grid percolates once its site is open |
| Grid.SitesGrow | src/Percolation.java:87 | opening the site (i, j) adds exactly (i, j) to the open coordinates |
| PercolationOneForest.InitialInvariant | src/Percolation.java:30-43 | the fresh grid, all closed, each site alone, no flag set and not percolating, satisfies the flag invariant with open neighbours joined |
| PercolationOneForest.OpenTouches | src/Percolation.java:87-92 | opening a closed site only adds its own singleton component's contact with its row |
| PercolationOneForest.OpenKeepsFlags | src/Percolation.java:87-92 | opening a site and flagging it when it lies in the row keeps the root flags exact |
| PercolationOneForest.OpenKeepsSpans | src/Percolation.java:88 | opening a site makes a component span the first and last rows afresh only when the grid is 1-by-1 |
| PercolationOneForest.OpenKeepsSound | src/Percolation.java:87 | opening a site keeps every open site connected to its component's root |
| PercolationOneForest.OpenKeepsInvariant | src/Percolation.java:87-92 | the first half of open keeps the flag invariant and leaves open neighbours joined except at the opened site |
| PercolationOneForest.RelinkLabels | src/Percolation.java:139 | a link keeps every label a self-labelled root |
| PercolationOneForest.RelinkTouches | src/Percolation.java:139 | after a link the winner's component touches a row when either old one did, the loser touches nothing, and the other components are unchanged |
| PercolationOneForest.RelinkFlags | src/Percolation.java:132-158 | giving the new root the OR of the two roots' flags keeps the root flags exact |
| PercolationOneForest.RelinkSpans | src/Percolation.java:157-163 | after a link some component spans exactly when one did before or the new root carries both flags |
| PercolationOneForest.RelinkClosedAlone | src/Percolation.java:139 | merging the components of two open sites keeps every closed site alone |
| PercolationOneForest.RelinkSound | src/Percolation.java:139 | merging the components of two open neighbours keeps every open site connected to its root |
| PercolationOneForest.LinkKeepsFlagInvariant | src/Percolation.java:127-164 | linkTwoNodes on two components keeps the flag invariant |
| PercolationOneForest.LinkStep | src/Percolation.java:127-164 | linkTwoNodes keeps the flag invariant whether or not the two sites already shared a component |
| PercolationOneForest.FlagsSpan | src/Percolation.java:160-163 | a root flagged for both the first and last rows implies percolates is set |
| PercolationOneForest.TopFlagIsFull | src/Percolation.java:208-217 | no backwash: an open site's root carries the top flag exactly when the site is full, whatever the bottom flags say |
| PercolationOneForest.SpansPercolates | src/Percolation.java:220-229 | a component spanning the first and last rows gives a walk from the first row to the last |
| PercolationOneForest.PercolationSpans | src/Percolation.java:220-229 | with open neighbours joined, a walk from the first row to the last puts its ends in one spanning component |
| PercolationOneForest.SpansIsPercolation | src/Percolation.java:220-229 | with open neighbours joined, some component spans exactly when the grid percolates |
| PercolationOneForest.Percolation.constructor | src/Percolation.java:25-44 | an n-by-n grid with no site open, not percolating, in the valid state |
| PercolationOneForest.Percolation.Create | src/Percolation.java:25-28 | InvalidArgument exactly when N <= 0, otherwise a fresh valid grid with no open site |
| PercolationOneForest.Percolation.WithinRange | src/Percolation.java:51-53 | the guard of open, isOpen and isFull: x is a row or column of this grid exactly when 1 <= x <= n; each of them returns IndexOutOfRange exactly when it fails for i or j |
| PercolationOneForest.Percolation.UnionRoots | src/Percolation.java:128-148 | returns both sites' old roots and the root after union, which both sites now share; exactly their two components merged |
| PercolationOneForest.Percolation.SetRootFlags | src/Percolation.java:157-163 | the root's two flags become the given values, and percolates is set when both are true, never cleared |
| PercolationOneForest.Percolation.LinkTwoNodes | src/Percolation.java:127-164 | the two components are merged; the merged root's flags are the OR of the two old roots' flags; percolates becomes true when both are set |
| PercolationOneForest.Percolation.LinkIfOpen | src/Percolation.java:95-99 | an existing open neighbour is joined with the opened site, neighbours joined before stay joined, and percolates is never cleared |
| PercolationOneForest.Percolation.MarkOpen | src/Percolation.java:87-92 | exactly the site is marked open and added to the opened coordinates; every other open neighbour pair stays joined |
| PercolationOneForest.Percolation.JoinNeighbors | src/Percolation.java:94-117 | restores the full invariant: every two open neighbours share a component |
| PercolationOneForest.Percolation.Open | src/Percolation.java:63-118 | IndexOutOfRange exactly when a coordinate is off the grid, and then the open sites, both flag arrays, percolates and the forest's components are unchanged; otherwise exactly (i, j) is opened, no component is split, percolates is never cleared, and the grid stays valid |
| PercolationOneForest.Percolation.IsOpen | src/Percolation.java:172-187 | IndexOutOfRange exactly when a coordinate is off the grid, else whether (i, j) was opened |
| PercolationOneForest.Percolation.IsFull | src/Percolation.java:195-218 | IndexOutOfRange exactly when a coordinate is off the grid, else exactly whether the site is full |
| PercolationOneForest.Percolation.Percolates | src/Percolation.java:224-229 | exactly whether open sites lead from the first row to the last |
| VirtualNodes.ReachEdge | src/Percolation_2UFObjectsSolution_NotAsEfficient.java:9-11 | the two ends of an edge of the virtual-node graph reach each other |
| VirtualNodes.ReachTrans | src/Percolation_2UFObjectsSolution_NotAsEfficient.java:9-11 | reachability in the virtual-node graph is transitive |
| VirtualNodes.ReachSym | src/Percolation_2UFObjectsSolution_NotAsEfficient.java:9-11 | reachability in the virtual-node graph is symmetric |
| VirtualNodes.ReachGrows | src/Percolation_2UFObjectsSolution_NotAsEfficient.java:9-11 | opening more sites keeps every reachability |
| VirtualNodes.IdentitySound | src/Percolation_2UFObjectsSolution_NotAsEfficient.java:32-33 | fresh forests with singleton components are sound for the graph |
| VirtualNodes.MergeKeepsSound | src/Percolation_2UFObjectsSolution_NotAsEfficient.java:48-87 | a union of two nodes that reach each other keeps a forest sound |
| VirtualNodes.OpenKeepsSound | src/Percolation_2UFObjectsSolution_NotAsEfficient.java:46 | opening a site keeps a forest sound |
| VirtualNodes.ClosedComplete | src/Percolation_2UFObjectsSolution_NotAsEfficient.java:28-33 | with every site closed there is no edge, so any forest is complete |
| VirtualNodes.OpenKeepsJoins | src/Percolation_2UFObjectsSolution_NotAsEfficient.java:46 | opening a site leaves every edge joined except the edges at that site |
| VirtualNodes.CoarserKeepsVirtualJoins | src/Percolation_2UFObjectsSolution_NotAsEfficient.java:48-87 | unions keep every open site of the first and last rows with its virtual node |
| VirtualNodes.CoarserKeepsNeighborJoins | src/Percolation_2UFObjectsSolution_NotAsEfficient.java:48-87 | unions keep every two open neighbours in one component |
| VirtualNodes.MergeKeepsCompleteAway | src/Percolation_2UFObjectsSolution_NotAsEfficient.java:48-73 | a union keeps all edges joined away from the opened site, and the neighbours handled so far stay joined |
| VirtualNodes.MergedKeepsCoarser | src/Percolation_2UFObjectsSolution_NotAsEfficient.java:48-79 | the same union in uf2 and in uf keeps uf2's partition finer than uf's |
| VirtualNodes.TopJoinedAtLast | src/Percolation_2UFObjectsSolution_NotAsEfficient.java:75-79 | after the top-row step, every open first-row site is with the top node |
| VirtualNodes.BottomJoinedAtLast | src/Percolation_2UFObjectsSolution_NotAsEfficient.java:81-87 | after the bottom-row step, every open last-row site is with the bottom node |
| VirtualNodes.FullNext | src/Percolation_2UFObjectsSolution_NotAsEfficient.java:108-118 | a site reached by an edge from the top node or from a full site is full |
| VirtualNodes.FullAlong | src/Percolation_2UFObjectsSolution_NotAsEfficient.java:108-118 | a path without the bottom node from the top node or a full site ends, when it ends at a site, at a full site |
| VirtualNodes.PercolatesAlong | src/Percolation_2UFObjectsSolution_NotAsEfficient.java:123-144 | a path from the top node or a full site to the bottom node shows that the grid percolates |
| VirtualNodes.TopJoinIsFull | src/Percolation_2UFObjectsSolution_NotAsEfficient.java:100-121 | for a sound and complete forest without a bottom node, an open site is with the top node exactly when it is full |
| VirtualNodes.BottomJoinIsPercolation | src/Percolation_2UFObjectsSolution_NotAsEfficient.java:123-145 | for a sound and complete forest with both virtual nodes, top and bottom share a component exactly when the grid percolates |
| VirtualNodes.BackwashExample | src/Percolation_2UFObjectsSolution_NotAsEfficient.java:108-118 | backwash: a 3-by-3 grid where the bottom-right site reaches the top node through the bottom node but is not full, so a forest with the bottom node cannot tell fullness (see BackwashJoinsTop) |
| VirtualNodes.BackwashJoinsTop | src/Percolation_2UFObjectsSolution_NotAsEfficient.java:108-118 | on that same grid, every labelling that joins each edge of the graph with a bottom node puts the bottom-right site with the top node, although the site is not full |
| TwoForestPercolation.FreshForests | src/Percolation_2UFObjectsSolution_NotAsEfficient.java:21-34 | the fresh forests are sound and complete for the closed grid, and uf2 is finer than uf |
| TwoForestPercolation.BottomStep | src/Percolation_2UFObjectsSolution_NotAsEfficient.java:81-87 | joining an open last-row site with the bottom node completes uf once every other edge is joined |
| TwoForestPercolation.Percolation.constructor | src/Percolation_2UFObjectsSolution_NotAsEfficient.java:21-34 | an n-by-n grid with no site open and both forests valid |
| TwoForestPercolation.Percolation.Create | src/Percolation_2UFObjectsSolution_NotAsEfficient.java:21-23 | InvalidArgument exactly when N <= 0, otherwise a fresh valid grid with no open site |
| TwoForestPercolation.Percolation.WithinRange | src/Percolation_2UFObjectsSolution_NotAsEfficient.java:36-38 | the guard of open, isOpen and isFull: x is a row or column of this grid exactly when 1 <= x <= n; each of them returns IndexOutOfRange exactly when it fails for i or j |
| TwoForestPercolation.Percolation.UnionBoth | src/Percolation_2UFObjectsSolution_NotAsEfficient.java:53-54 | the same two nodes are merged in uf and in uf2, keeping both sound and uf2 finer than uf |
| TwoForestPercolation.Percolation.LinkIfOpen | src/Percolation_2UFObjectsSolution_NotAsEfficient.java:48-55 | an existing open neighbour is joined with the opened site in both forests, and earlier joins are kept |
| TwoForestPercolation.Percolation.MarkOpen | src/Percolation_2UFObjectsSolution_NotAsEfficient.java:46 | exactly the site is opened and added to the opened coordinates; every edge away from it stays joined in both forests |
| TwoForestPercolation.Percolation.JoinNeighbors | src/Percolation_2UFObjectsSolution_NotAsEfficient.java:48-73 | every two open neighbours share a component in both forests; uf only coarsens |
| TwoForestPercolation.Percolation.JoinTop | src/Percolation_2UFObjectsSolution_NotAsEfficient.java:75-79 | every open first-row site is with the top node in both forests |
| TwoForestPercolation.Percolation.UnionBottom | src/Percolation_2UFObjectsSolution_NotAsEfficient.java:83 | the opened last-row site and the bottom node are merged in uf alone, keeping uf sound and uf2 finer |
| TwoForestPercolation.Percolation.JoinBottom | src/Percolation_2UFObjectsSolution_NotAsEfficient.java:81-87 | every open last-row site is with the bottom node in uf, which restores the full invariant |
| TwoForestPercolation.Percolation.Open | src/Percolation_2UFObjectsSolution_NotAsEfficient.java:40-88 | IndexOutOfRange exactly when a coordinate is off the grid, and then the open sites and the components of both forests are unchanged; otherwise exactly (i, j) is opened; uf only coarsens and stays coarser than uf2 |
| TwoForestPercolation.Percolation.IsOpen | src/Percolation_2UFObjectsSolution_NotAsEfficient.java:90-98 | IndexOutOfRange exactly when a coordinate is off the grid, else whether (i, j) was opened |
| TwoForestPercolation.Percolation.IsFull | src/Percolation_2UFObjectsSolution_NotAsEfficient.java:100-121 | IndexOutOfRange exactly when a coordinate is off the grid, else exactly whether the site is full: no backwash |
| TwoForestPercolation.Percolation.Percolates | src/Percolation_2UFObjectsSolution_NotAsEfficient.java:123-145 | exactly whether open sites lead from the first row to the last |

## Left out

- `src/PercolationStats.java` is not part of this model. It runs Monte Carlo trials with random numbers and floating-point statistics.
- The `main` methods of the three core files are not modelled. The mains of the two grid classes open random sites of a 1000-by-1000 grid until it percolates, then print the number of open sites and the elapsed time; they depend on random numbers, the clock and floating point. The body of the union-find main is commented out, so it does nothing.
- Running-time claims are not modelled: logarithmic `find` and `union`, constant-time `count`, linear construction. Only termination of `find` is proved, through the ghost rank.
- Java's 32-bit `int` arithmetic is not modelled. The model's integers are unbounded, so `n * n`, `n * n + 2` and the flat index do not wrap for n above 46340 as they do in Java.
- Exceptions are modelled as error values (`Result`, `Outcome`):
  - `IllegalArgumentException` from the grid constructors becomes the static `Create`, because a Dafny constructor cannot fail;
  - `IndexOutOfBoundsException` from `open`, `isOpen`, `isFull`, `find`, `connected` and `union` becomes `IndexOutOfRange`.
- UnionFind.WeightedQuickUnionUF.constructor: takes a natural N. Java's negative-size failure is not modelled, and every caller in the core passes a positive size.
- UnionFind.WeightedQuickUnionUF.Union: on IndexOutOfRange with a valid p and an invalid q, `find(p)` has already halved p's path. The model states the partition, sizes and count unchanged, not the parent array. The same holds when p and q already share a root: both finds may have halved paths, so only the partition, sizes and count are stated unchanged.
- PercolationOneForest.Percolation.UnionRoots: requires both sites to be in range. It is a part of the private `linkTwoNodes`, whose callers always pass neighbouring sites of the grid.
- Decomposition into smaller members, running the Java statements in the same order:
  - one-forest `open` → `MarkOpen`, `JoinNeighbors`, `LinkIfOpen`;
  - `linkTwoNodes` → `UnionRoots`, `SetRootFlags`;
  - two-forest `open` → `MarkOpen`, `JoinNeighbors`, `JoinTop`, `JoinBottom`, `UnionBoth`, `UnionBottom`.
- The two-forest `grid` array has n * n + 2 entries, as in Java. The last two entries stay false and unused. The ghost field `cells` mirrors the first n * n entries.
