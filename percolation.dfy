/**
 * The percolation grid that keeps, at the root of every component of one union-find
 * forest over the n * n cells, whether the component reaches the first row and whether
 * it reaches the last row. Rows and columns are numbered 1 .. n from the top left.
 */
module PercolationOneForest {
  import opened Outcomes
  import opened Forest
  import opened Grid
  import opened UnionFind

  /** The component labelled r holds an open cell of 0-based row `row`. */
  ghost predicate Touches(n: int, open: seq<bool>, rootOf: seq<int>, r: int, row: int)
    requires n > 0
  {
    exists c {:trigger RowOf(n, c)} :: 0 <= c < |open| && c < |rootOf| && open[c] && rootOf[c] == r && RowOf(n, c) == row
  }

  /** At every root, flag says exactly whether the component touches row `row`. */
  ghost predicate FlagsAgree(n: int, open: seq<bool>, rootOf: seq<int>, flag: seq<bool>, row: int)
    requires n > 0
  {
    && |flag| == |rootOf|
    && forall r {:trigger flag[r]} :: 0 <= r < |rootOf| && rootOf[r] == r ==> (flag[r] <==> Touches(n, open, rootOf, r, row))
  }

  /** Every label is a root that labels itself. */
  ghost predicate Labels(rootOf: seq<int>)
  {
    forall i :: 0 <= i < |rootOf| ==> 0 <= rootOf[i] < |rootOf| && rootOf[rootOf[i]] == rootOf[i]
  }

  /**
   * Only open cells are joined to others: a cell labelled by another is open, and so is the
   * root labelling it. Hence a closed cell is alone in its component.
   */
  ghost predicate ClosedAlone(open: seq<bool>, rootOf: seq<int>)
  {
    forall x :: 0 <= x < |rootOf| && x < |open| && rootOf[x] != x ==>
      open[x] && 0 <= rootOf[x] < |open| && open[rootOf[x]]
  }

  /** Some component holds an open cell of the first row and one of the last. */
  ghost predicate Spans(n: int, open: seq<bool>, rootOf: seq<int>)
    requires n > 0
  {
    exists r :: 0 <= r < |rootOf| && Touches(n, open, rootOf, r, 0) && Touches(n, open, rootOf, r, n - 1)
  }

  /** Every open cell is linked through open cells to the root of its component. */
  ghost predicate SoundLinks(n: int, open: seq<bool>, rootOf: seq<int>)
  {
    forall x {:trigger Linked(n, open, rootOf[x], x)} :: 0 <= x < |rootOf| && x < |open| && open[x] ==> Linked(n, open, rootOf[x], x)
  }

  /**
   * What the grid's state means between two calls, except for the joining of open
   * neighbours: the two flag arrays agree with the components at their roots, the
   * percolation flag says whether a component spans, and components are sound.
   */
  ghost predicate FlagInvariant(n: int, open: seq<bool>, rootOf: seq<int>, top: seq<bool>, bot: seq<bool>, perc: bool)
  {
    && n > 0 && |open| == n * n && |rootOf| == n * n
    && Labels(rootOf)
    && ClosedAlone(open, rootOf)
    && FlagsAgree(n, open, rootOf, top, 0)
    && FlagsAgree(n, open, rootOf, bot, n - 1)
    && (perc <==> Spans(n, open, rootOf))
    && SoundLinks(n, open, rootOf)
  }

  /** The fresh grid: all cells closed, each alone, no flag set. */
  lemma InitialInvariant(n: int)
    requires n > 0
    ensures var N := n * n;
      FlagInvariant(n, seq(N, i => false), Identity(N), seq(N, i => false), seq(N, i => false), false)
      && NeighborsJoined(n, seq(N, i => false), Identity(N))
  {
  }

  /** The root of an open cell is open. */
  lemma RootIsOpen(open: seq<bool>, rootOf: seq<int>, x: int)
    requires ClosedAlone(open, rootOf) && |open| == |rootOf| && 0 <= x < |open| && open[x]
    ensures 0 <= rootOf[x] < |open| && open[rootOf[x]]
  {
  }

  /** Opening a closed cell id adds exactly the touch of its own singleton component. */
  lemma OpenTouches(n: int, open: seq<bool>, rootOf: seq<int>, id: int, r: int, row: int)
    requires n > 0 && |open| == |rootOf| && 0 <= id < |open| && !open[id]
    requires ClosedAlone(open, rootOf) && Labels(rootOf)
    ensures rootOf[id] == id
    ensures Touches(n, open[id := true], rootOf, r, row) <==>
              Touches(n, open, rootOf, r, row) || (r == id && RowOf(n, id) == row)
  {
    var open2 := open[id := true];
    if Touches(n, open2, rootOf, r, row) {
      var c :| 0 <= c < |open2| && c < |rootOf| && open2[c] && rootOf[c] == r && RowOf(n, c) == row;
      if c != id {
        assert Touches(n, open, rootOf, r, row);
      }
    }
    if Touches(n, open, rootOf, r, row) {
      var c :| 0 <= c < |open| && c < |rootOf| && open[c] && rootOf[c] == r && RowOf(n, c) == row;
      assert open2[c];
    }
    if r == id && RowOf(n, id) == row {
      assert open2[id];
    }
  }

  /** Opening cell id, and setting its flag when it lies in row `row`, keeps a flag array agreeing. */
  lemma OpenKeepsFlags(n: int, open: seq<bool>, rootOf: seq<int>, flag: seq<bool>, row: int, id: int)
    requires n > 0 && |open| == n * n && |rootOf| == n * n && 0 <= id < n * n
    requires Labels(rootOf) && ClosedAlone(open, rootOf) && FlagsAgree(n, open, rootOf, flag, row)
    ensures FlagsAgree(n, open[id := true], rootOf, if RowOf(n, id) == row then flag[id := true] else flag, row)
  {
    var open2 := open[id := true];
    var flag2 := if RowOf(n, id) == row then flag[id := true] else flag;
    if open[id] {
      assert open2 == open;
      if RowOf(n, id) == row && rootOf[id] == id {
        assert Touches(n, open, rootOf, id, row);
      }
    } else {
      forall r | 0 <= r < n * n && rootOf[r] == r
        ensures flag2[r] <==> Touches(n, open2, rootOf, r, row)
      {
        OpenTouches(n, open, rootOf, id, r, row);
      }
    }
  }

  /** Opening cell id makes a component span only when the grid is the single cell id. */
  lemma OpenKeepsSpans(n: int, open: seq<bool>, rootOf: seq<int>, id: int)
    requires n > 0 && |open| == n * n && |rootOf| == n * n && 0 <= id < n * n
    requires Labels(rootOf) && ClosedAlone(open, rootOf)
    ensures Spans(n, open[id := true], rootOf) <==> Spans(n, open, rootOf) || n == 1
  {
    var open2 := open[id := true];
    if open[id] {
      assert open2 == open;
      if n == 1 {
        assert RowOf(n, id) == 0;
        assert Touches(n, open, rootOf, rootOf[id], 0);
      }
    } else {
      if Spans(n, open2, rootOf) {
        var r :| 0 <= r < |rootOf| && Touches(n, open2, rootOf, r, 0) && Touches(n, open2, rootOf, r, n - 1);
        OpenTouches(n, open, rootOf, id, r, 0);
        OpenTouches(n, open, rootOf, id, r, n - 1);
      }
      if Spans(n, open, rootOf) {
        var r :| 0 <= r < |rootOf| && Touches(n, open, rootOf, r, 0) && Touches(n, open, rootOf, r, n - 1);
        OpenTouches(n, open, rootOf, id, r, 0);
        OpenTouches(n, open, rootOf, id, r, n - 1);
      }
      if n == 1 {
        OpenTouches(n, open, rootOf, id, id, 0);
        assert RowOf(n, id) == 0;
      }
    }
  }

  /** Opening cell id keeps components sound. */
  lemma OpenKeepsSound(n: int, open: seq<bool>, rootOf: seq<int>, id: int)
    requires n > 0 && |open| == n * n && |rootOf| == n * n && 0 <= id < n * n
    requires ClosedAlone(open, rootOf) && SoundLinks(n, open, rootOf)
    ensures SoundLinks(n, open[id := true], rootOf)
  {
    var open2 := open[id := true];
    forall x | 0 <= x < n * n && open2[x] ensures Linked(n, open2, rootOf[x], x) {
      if open[x] {
        LinkedGrows(n, open, open2, rootOf[x], x);
      } else {
        assert x == id && rootOf[x] == x;
        LinkedSelf(n, open2, x);
      }
    }
  }

  /**
   * Opening cell id (and setting its own flags when it lies in the first or last row, and
   * the percolation flag when the grid is a single cell) keeps the invariant, and leaves
   * open neighbours joined except those of id.
   */
  lemma OpenKeepsInvariant(n: int, open: seq<bool>, rootOf: seq<int>, top: seq<bool>, bot: seq<bool>, perc: bool, id: int,
                           open2: seq<bool>, top2: seq<bool>, bot2: seq<bool>, perc2: bool)
    requires FlagInvariant(n, open, rootOf, top, bot, perc) && 0 <= id < n * n
    requires open2 == open[id := true]
    requires top2 == if RowOf(n, id) == 0 then top[id := true] else top
    requires bot2 == if RowOf(n, id) == n - 1 then bot[id := true] else bot
    requires perc2 == (perc || n == 1)
    ensures FlagInvariant(n, open2, rootOf, top2, bot2, perc2)
    ensures NeighborsJoined(n, open, rootOf) ==> JoinedAwayFrom(n, open2, rootOf, id)
  {
    OpenKeepsFlags(n, open, rootOf, top, 0, id);
    OpenKeepsFlags(n, open, rootOf, bot, n - 1, id);
    OpenKeepsSpans(n, open, rootOf, id);
    OpenKeepsSound(n, open, rootOf, id);
    assert ClosedAlone(open2, rootOf);
    if NeighborsJoined(n, open, rootOf) {
      forall a, b | && Adjacent(n, a, b) && a < |open2| && b < |open2| && a < |rootOf| && b < |rootOf|
                    && open2[a] && open2[b] && a != id && b != id
        ensures rootOf[a] == rootOf[b]
      {
        assert open[a] && open[b];
      }
    }
  }

  /** Hanging root loser below root winner keeps every label a self-labelled root. */
  lemma RelinkLabels(rootOf: seq<int>, loser: int, winner: int)
    requires Labels(rootOf) && 0 <= loser < |rootOf| && 0 <= winner < |rootOf| && loser != winner
    requires rootOf[loser] == loser && rootOf[winner] == winner
    ensures Labels(Relink(rootOf, loser, winner))
  {
  }

  /**
   * After the component of loser is merged into that of winner, the winner's component
   * touches a row when either old one did, the loser labels nothing, and every other
   * component is as it was.
   */
  lemma RelinkTouches(n: int, open: seq<bool>, rootOf: seq<int>, r: int, row: int, loser: int, winner: int)
    requires n > 0 && |open| == |rootOf| && loser != winner
    ensures Touches(n, open, Relink(rootOf, loser, winner), r, row) <==>
      if r == winner then Touches(n, open, rootOf, loser, row) || Touches(n, open, rootOf, winner, row)
      else if r == loser then false
      else Touches(n, open, rootOf, r, row)
  {
    var rootOf2 := Relink(rootOf, loser, winner);
    if Touches(n, open, rootOf2, r, row) {
      var c :| 0 <= c < |open| && c < |rootOf2| && open[c] && rootOf2[c] == r && RowOf(n, c) == row;
      if r == winner && rootOf[c] == loser {
        assert Touches(n, open, rootOf, loser, row);
      } else {
        assert Touches(n, open, rootOf, r, row);
      }
    }
    if r == winner && Touches(n, open, rootOf, loser, row) {
      var c :| 0 <= c < |open| && c < |rootOf| && open[c] && rootOf[c] == loser && RowOf(n, c) == row;
      assert rootOf2[c] == winner;
    }
    if r != loser && Touches(n, open, rootOf, r, row) {
      var c :| 0 <= c < |open| && c < |rootOf| && open[c] && rootOf[c] == r && RowOf(n, c) == row;
      assert rootOf2[c] == r;
    }
  }

  /**
   * After the component of loser is merged into that of winner, the winner's flag is the
   * OR of the two old flags and every other root keeps its own.
   */
  lemma RelinkFlags(n: int, open: seq<bool>, rootOf: seq<int>, flag: seq<bool>, row: int, loser: int, winner: int)
    requires n > 0 && |open| == |rootOf| && Labels(rootOf) && FlagsAgree(n, open, rootOf, flag, row)
    requires 0 <= loser < |rootOf| && 0 <= winner < |rootOf| && loser != winner
    requires rootOf[loser] == loser && rootOf[winner] == winner
    ensures FlagsAgree(n, open, Relink(rootOf, loser, winner), flag[winner := flag[loser] || flag[winner]], row)
  {
    var rootOf2 := Relink(rootOf, loser, winner);
    var flag2 := flag[winner := flag[loser] || flag[winner]];
    forall r | 0 <= r < |rootOf2| && rootOf2[r] == r
      ensures flag2[r] <==> Touches(n, open, rootOf2, r, row)
    {
      RelinkTouches(n, open, rootOf, r, row, loser, winner);
      if r != winner {
        assert rootOf[r] == r && r != loser;
      }
    }
  }

  /**
   * After the merge some component spans exactly when one did before or the merged
   * component is flagged as touching both the first and the last row.
   */
  lemma RelinkSpans(n: int, open: seq<bool>, rootOf: seq<int>, top: seq<bool>, bot: seq<bool>, loser: int, winner: int)
    requires n > 0 && |open| == |rootOf| && Labels(rootOf)
    requires FlagsAgree(n, open, rootOf, top, 0) && FlagsAgree(n, open, rootOf, bot, n - 1)
    requires 0 <= loser < |rootOf| && 0 <= winner < |rootOf| && loser != winner
    requires rootOf[loser] == loser && rootOf[winner] == winner
    ensures Spans(n, open, Relink(rootOf, loser, winner))
            <==> Spans(n, open, rootOf) || ((top[loser] || top[winner]) && (bot[loser] || bot[winner]))
  {
    var rootOf2 := Relink(rootOf, loser, winner);
    RelinkTouches(n, open, rootOf, winner, 0, loser, winner);
    RelinkTouches(n, open, rootOf, winner, n - 1, loser, winner);
    if Spans(n, open, rootOf2) {
      var r :| 0 <= r < |rootOf2| && Touches(n, open, rootOf2, r, 0) && Touches(n, open, rootOf2, r, n - 1);
      RelinkTouches(n, open, rootOf, r, 0, loser, winner);
      RelinkTouches(n, open, rootOf, r, n - 1, loser, winner);
    }
    if Spans(n, open, rootOf) {
      var r :| 0 <= r < |rootOf| && Touches(n, open, rootOf, r, 0) && Touches(n, open, rootOf, r, n - 1);
      RelinkTouches(n, open, rootOf, r, 0, loser, winner);
      RelinkTouches(n, open, rootOf, r, n - 1, loser, winner);
      if r == loser || r == winner {
        assert Touches(n, open, rootOf2, winner, 0) && Touches(n, open, rootOf2, winner, n - 1);
      } else {
        assert Touches(n, open, rootOf2, r, 0) && Touches(n, open, rootOf2, r, n - 1);
      }
    }
  }

  /** Merging the components of two open cells keeps closed cells alone. */
  lemma RelinkClosedAlone(open: seq<bool>, rootOf: seq<int>, a: int, b: int, loser: int, winner: int)
    requires ClosedAlone(open, rootOf) && |open| == |rootOf|
    requires 0 <= a < |open| && 0 <= b < |open| && open[a] && open[b]
    requires (rootOf[a] == loser && rootOf[b] == winner) || (rootOf[a] == winner && rootOf[b] == loser)
    ensures ClosedAlone(open, Relink(rootOf, loser, winner))
  {
    RootIsOpen(open, rootOf, a);
    RootIsOpen(open, rootOf, b);
  }

  /** Merging the components of two open neighbours keeps components sound. */
  lemma RelinkSound(n: int, open: seq<bool>, rootOf: seq<int>, a: int, b: int, loser: int, winner: int)
    requires SoundLinks(n, open, rootOf) && |open| == |rootOf|
    requires Adjacent(n, a, b) && 0 <= a < |open| && 0 <= b < |open| && open[a] && open[b]
    requires (rootOf[a] == loser && rootOf[b] == winner) || (rootOf[a] == winner && rootOf[b] == loser)
    ensures SoundLinks(n, open, Relink(rootOf, loser, winner))
  {
    var rootOf2 := Relink(rootOf, loser, winner);
    var (l, w) := if rootOf[a] == loser then (a, b) else (b, a);
    assert Adjacent(n, w, l);
    forall x | 0 <= x < |rootOf2| && x < |open| && open[x] ensures Linked(n, open, rootOf2[x], x) {
      if rootOf[x] == loser {
        LinkedStep(n, open, w, l);
        LinkedSym(n, open, loser, l);
        LinkedTrans(n, open, winner, w, l);
        LinkedTrans(n, open, winner, l, loser);
        LinkedTrans(n, open, winner, loser, x);
      }
    }
  }

  /**
   * Merging the components of two open neighbours, setting the new root's flags to the OR
   * of the two old roots' flags and raising the percolation flag when both are set, keeps
   * the invariant.
   */
  lemma LinkKeepsFlagInvariant(n: int, open: seq<bool>, rootOf: seq<int>, top: seq<bool>, bot: seq<bool>, perc: bool,
                               a: int, b: int, loser: int, winner: int)
    requires FlagInvariant(n, open, rootOf, top, bot, perc)
    requires Adjacent(n, a, b) && open[a] && open[b] && loser != winner
    requires (rootOf[a] == loser && rootOf[b] == winner) || (rootOf[a] == winner && rootOf[b] == loser)
    ensures var t, bt := top[loser] || top[winner], bot[loser] || bot[winner];
      FlagInvariant(n, open, Relink(rootOf, loser, winner), top[winner := t], bot[winner := bt], perc || (t && bt))
  {
    RelinkLabels(rootOf, loser, winner);
    RelinkFlags(n, open, rootOf, top, 0, loser, winner);
    RelinkFlags(n, open, rootOf, bot, n - 1, loser, winner);
    RelinkSpans(n, open, rootOf, top, bot, loser, winner);
    RelinkClosedAlone(open, rootOf, a, b, loser, winner);
    RelinkSound(n, open, rootOf, a, b, loser, winner);
  }

  /**
   * One step of linkTwoNodes on the ghost state: whether or not the two cells already shared a
   * component, the new root's flags being the OR of the old roots' flags keeps the invariant.
   */
  lemma LinkStep(n: int, open: seq<bool>, rootOf: seq<int>, top: seq<bool>, bot: seq<bool>, perc: bool,
                 a: int, b: int, rootOf2: seq<int>, top2: seq<bool>, bot2: seq<bool>, perc2: bool, r: int)
    requires FlagInvariant(n, open, rootOf, top, bot, perc)
    requires Adjacent(n, a, b) && open[a] && open[b]
    requires rootOf[a] == rootOf[b] ==> r == rootOf[a] && rootOf2 == rootOf
    requires rootOf[a] != rootOf[b] ==>
      && (r == rootOf[a] || r == rootOf[b])
      && rootOf2 == Relink(rootOf, if r == rootOf[a] then rootOf[b] else rootOf[a], r)
    requires top2 == top[r := top[rootOf[a]] || top[rootOf[b]]]
    requires bot2 == bot[r := bot[rootOf[a]] || bot[rootOf[b]]]
    requires perc2 == (perc || (top2[r] && bot2[r]))
    ensures FlagInvariant(n, open, rootOf2, top2, bot2, perc2)
  {
    if rootOf[a] == rootOf[b] {
      assert top2 == top && bot2 == bot;
      if top2[r] && bot2[r] {
        FlagsSpan(n, open, rootOf, top, bot, perc, r);
      }
    } else {
      var loser := if r == rootOf[a] then rootOf[b] else rootOf[a];
      LinkKeepsFlagInvariant(n, open, rootOf, top, bot, perc, a, b, loser, r);
    }
  }

  /** A root flagged as touching both the first and the last row makes its component span. */
  lemma FlagsSpan(n: int, open: seq<bool>, rootOf: seq<int>, top: seq<bool>, bot: seq<bool>, perc: bool, r: int)
    requires FlagInvariant(n, open, rootOf, top, bot, perc)
    requires 0 <= r < |rootOf| && rootOf[r] == r && top[r] && bot[r]
    ensures perc
  {
    assert Touches(n, open, rootOf, r, 0) && Touches(n, open, rootOf, r, n - 1);
  }

  /**
   * No backwash: once open neighbours are joined, an open cell's root carries the top flag
   * exactly when the cell is full, whatever the bottom flags say.
   */
  lemma TopFlagIsFull(n: int, open: seq<bool>, rootOf: seq<int>, top: seq<bool>, bot: seq<bool>, perc: bool, c: int)
    requires FlagInvariant(n, open, rootOf, top, bot, perc) && NeighborsJoined(n, open, rootOf)
    requires 0 <= c < n * n && open[c]
    ensures 0 <= rootOf[c] < |top|
    ensures top[rootOf[c]] <==> Full(n, open, c)
  {
    var r := rootOf[c];
    assert rootOf[r] == r;
    if top[r] {
      var t :| 0 <= t < |open| && t < |rootOf| && open[t] && rootOf[t] == r && RowOf(n, t) == 0;
      LinkedSym(n, open, r, t);
      LinkedTrans(n, open, t, r, c);
    }
    if Full(n, open, c) {
      var t :| 0 <= t < |open| && RowOf(n, t) == 0 && Linked(n, open, t, c);
      LinkedSameComponent(n, open, rootOf, t, c);
      LinkedEndsOpen(n, open, t, c);
      assert Touches(n, open, rootOf, r, 0);
    }
  }

  /** A spanning component holds a path of open cells from the first row to the last. */
  lemma SpansPercolates(n: int, open: seq<bool>, rootOf: seq<int>)
    requires n > 0 && |open| == n * n && |rootOf| == n * n
    requires SoundLinks(n, open, rootOf) && Spans(n, open, rootOf)
    ensures PercolatesThrough(n, open)
  {
    var r :| 0 <= r < |rootOf| && Touches(n, open, rootOf, r, 0) && Touches(n, open, rootOf, r, n - 1);
    var t :| 0 <= t < |open| && t < |rootOf| && open[t] && rootOf[t] == r && RowOf(n, t) == 0;
    var b :| 0 <= b < |open| && b < |rootOf| && open[b] && rootOf[b] == r && RowOf(n, b) == n - 1;
    assert Linked(n, open, rootOf[t], t) && Linked(n, open, rootOf[b], b);
    LinkedSym(n, open, r, t);
    LinkedTrans(n, open, t, r, b);
  }

  /** With open neighbours joined, the two ends of a percolating path share a spanning component. */
  lemma PercolationSpans(n: int, open: seq<bool>, rootOf: seq<int>)
    requires n > 0 && |open| == n * n && |rootOf| == n * n
    requires Labels(rootOf) && NeighborsJoined(n, open, rootOf) && PercolatesThrough(n, open)
    ensures Spans(n, open, rootOf)
  {
    var t, b :| 0 <= t < |open| && 0 <= b < |open| && RowOf(n, t) == 0 && RowOf(n, b) == n - 1
                && Linked(n, open, t, b);
    LinkedSameComponent(n, open, rootOf, t, b);
    LinkedEndsOpen(n, open, t, b);
    assert Touches(n, open, rootOf, rootOf[t], 0) && Touches(n, open, rootOf, rootOf[t], n - 1);
  }

  /** Once open neighbours are joined, a component spans exactly when the grid percolates. */
  lemma SpansIsPercolation(n: int, open: seq<bool>, rootOf: seq<int>)
    requires n > 0 && |open| == n * n && |rootOf| == n * n
    requires Labels(rootOf) && SoundLinks(n, open, rootOf) && NeighborsJoined(n, open, rootOf)
    ensures Spans(n, open, rootOf) <==> PercolatesThrough(n, open)
  {
    if Spans(n, open, rootOf) {
      SpansPercolates(n, open, rootOf);
    }
    if PercolatesThrough(n, open) {
      PercolationSpans(n, open, rootOf);
    }
  }

  /**
   * The grid of Percolation.java: the open state of every cell, and at every root of the
   * forest whether its component reaches the first and the last row.
   */
  class Percolation {
    /** The number of rows, which is also the number of columns. */
    const n: int
    const nTimesN: int
    const gridIsOpen: array<bool>
    const gridIsConnectedToTopRow: array<bool>
    const gridIsConnectedToBotRow: array<bool>
    const uf: WeightedQuickUnionUF
    /** Set once some component reaches both the first and the last row; never cleared. */
    var percolates: bool

    /** The objects that make up the grid. */
    ghost const Repr: set<object>

    /** The state between two calls of open, save that the cell being opened may not yet be joined. */
    ghost predicate Inner()
      reads this, Repr
    {
      && Repr == {this, uf, uf.parent, uf.size, gridIsOpen, gridIsConnectedToTopRow, gridIsConnectedToBotRow}
      && n > 0 && nTimesN == n * n
      && gridIsOpen.Length == nTimesN
      && gridIsConnectedToTopRow.Length == nTimesN && gridIsConnectedToBotRow.Length == nTimesN
      && gridIsOpen != gridIsConnectedToTopRow && gridIsOpen != gridIsConnectedToBotRow
      && gridIsConnectedToTopRow != gridIsConnectedToBotRow
      && uf.Valid() && uf.parent.Length == nTimesN
      && FlagInvariant(n, gridIsOpen[..], uf.rootOf, gridIsConnectedToTopRow[..], gridIsConnectedToBotRow[..],
                       percolates)
    }

    /** The coordinates (row, column) of the open cells. */
    ghost function OpenedSites(): set<(int, int)>
      requires n > 0 && gridIsOpen.Length == n * n
      reads this, gridIsOpen
    {
      Sites(n, gridIsOpen[..])
    }

    ghost predicate Valid()
      reads this, Repr
    {
      && Inner()
      && NeighborsJoined(n, gridIsOpen[..], uf.rootOf)
    }

    /** An n-by-n grid with every cell closed. */
    constructor (N: int)
      requires N > 0
      ensures Valid() && fresh(Repr)
      ensures n == N && OpenedSites() == {} && !percolates
    {
      n := N;
      nTimesN := N * N;
      var open := new bool[N * N](_ => false);
      var top := new bool[N * N](_ => false);
      var bot := new bool[N * N](_ => false);
      var forest := new WeightedQuickUnionUF(N * N);
      gridIsOpen, gridIsConnectedToTopRow, gridIsConnectedToBotRow, uf := open, top, bot, forest;
      percolates := false;
      Repr := {this, forest, forest.parent, forest.size, open, top, bot};
      new;
      assert gridIsOpen[..] == seq(N * N, i => false);
      assert gridIsConnectedToTopRow[..] == seq(N * N, i => false);
      assert gridIsConnectedToBotRow[..] == seq(N * N, i => false);
      InitialInvariant(N);
    }

    /** A grid of N rows, or InvalidArgument when N is not positive. */
    static method Create(N: int) returns (r: Result<Percolation>)
      ensures r.Err? <==> N <= 0
      ensures r.Err? ==> r.error == InvalidArgument
      ensures r.Ok? ==> && fresh(r.value) && fresh(r.value.Repr) && r.value.Valid()
                        && r.value.n == N && r.value.OpenedSites() == {} && !r.value.percolates
    {
      if N <= 0 {
        return Err(InvalidArgument);
      }
      var p := new Percolation(N);
      return Ok(p);
    }

    /** Whether x is a valid row or column number of this grid. */
    predicate WithinRange(x: int)
      reads this
    {
      WithinPrescribedRange(n, x)
    }

    /**
     * The forest half of linkTwoNodes: the roots of both cells before their union, and the
     * root of the merged component after it.
     */
    method UnionRoots(id: int, neighborID: int) returns (thisRootID: int, neighborsRootID: int, newRootID: int)
      requires uf.Valid() && uf.Validate(id) && uf.Validate(neighborID)
      modifies uf, uf.parent, uf.size
      ensures uf.Valid()
      ensures thisRootID == old(uf.rootOf[id]) && neighborsRootID == old(uf.rootOf[neighborID])
      ensures newRootID == uf.rootOf[id] == uf.rootOf[neighborID]
      ensures Merged(old(uf.rootOf), uf.rootOf, id, neighborID)
      ensures thisRootID == neighborsRootID ==> uf.rootOf == old(uf.rootOf)
      ensures thisRootID != neighborsRootID ==>
        && (newRootID == thisRootID || newRootID == neighborsRootID)
        && uf.rootOf == Relink(old(uf.rootOf), if newRootID == thisRootID then neighborsRootID else thisRootID, newRootID)
    {
      var found := uf.Find(id);
      thisRootID := found.value;
      found := uf.Find(neighborID);
      neighborsRootID := found.value;
      var _ := uf.Union(id, neighborID);
      found := uf.Find(neighborID);
      newRootID := found.value;
      assert uf.rootOf[id] == uf.rootOf[neighborID] by {
        assert Together(uf.rootOf, id, neighborID);
      }
    }

    /**
     * The flag half of linkTwoNodes: the merged root gets the two flags, and the grid
     * percolates once both are set.
     */
    method SetRootFlags(root: int, toTop: bool, toBot: bool)
      requires 0 <= root < gridIsConnectedToTopRow.Length && root < gridIsConnectedToBotRow.Length
      requires gridIsConnectedToTopRow != gridIsConnectedToBotRow
      modifies this`percolates, gridIsConnectedToTopRow, gridIsConnectedToBotRow
      ensures gridIsConnectedToTopRow[..] == old(gridIsConnectedToTopRow[..])[root := toTop]
      ensures gridIsConnectedToBotRow[..] == old(gridIsConnectedToBotRow[..])[root := toBot]
      ensures percolates == (old(percolates) || (toTop && toBot))
    {
      gridIsConnectedToTopRow[root] := toTop;
      gridIsConnectedToBotRow[root] := toBot;
      if gridIsConnectedToTopRow[root] && gridIsConnectedToBotRow[root] {
        percolates := true;
      }
    }

    /**
     * Merges the components of two open neighbouring cells; the merged root's flags become
     * the OR of the two old roots' flags, and the grid percolates once both are set.
     */
    method LinkTwoNodes(id: int, neighborID: int)
      requires Inner()
      requires Adjacent(n, id, neighborID) && gridIsOpen[id] && gridIsOpen[neighborID]
      modifies this, uf, uf.parent, uf.size, gridIsConnectedToTopRow, gridIsConnectedToBotRow
      ensures Inner()
      ensures Merged(old(uf.rootOf), uf.rootOf, id, neighborID)
      ensures var r := uf.rootOf[id];
        && gridIsConnectedToTopRow[r] == old(gridIsConnectedToTopRow[uf.rootOf[id]] || gridIsConnectedToTopRow[uf.rootOf[neighborID]])
        && gridIsConnectedToBotRow[r] == old(gridIsConnectedToBotRow[uf.rootOf[id]] || gridIsConnectedToBotRow[uf.rootOf[neighborID]])
        && percolates == (old(percolates) || (gridIsConnectedToTopRow[r] && gridIsConnectedToBotRow[r]))
    {
      var thisRootID, neighborsRootID, newlyMergedGroupsRootID := UnionRoots(id, neighborID);
      var atLeastOneNodeIsConnectedToTopRow := gridIsConnectedToTopRow[neighborsRootID] || gridIsConnectedToTopRow[thisRootID];
      var atLeastOneNodeIsConnectedToBotRow := gridIsConnectedToBotRow[neighborsRootID] || gridIsConnectedToBotRow[thisRootID];
      SetRootFlags(newlyMergedGroupsRootID, atLeastOneNodeIsConnectedToTopRow, atLeastOneNodeIsConnectedToBotRow);
      LinkStep(n, gridIsOpen[..], old(uf.rootOf), old(gridIsConnectedToTopRow[..]), old(gridIsConnectedToBotRow[..]),
               old(percolates), id, neighborID, uf.rootOf, gridIsConnectedToTopRow[..], gridIsConnectedToBotRow[..],
               percolates, newlyMergedGroupsRootID);
    }

    /**
     * One of open's four neighbour steps: when the neighbour exists and is open, its component
     * is merged with that of the cell just opened; the neighbours handled before stay joined.
     */
    method LinkIfOpen(iD: int, neighbor: Option<int>, ghost done: seq<Option<int>>)
      requires Inner() && 0 <= iD < nTimesN && gridIsOpen[iD]
      requires neighbor.Some? ==> Adjacent(n, iD, neighbor.value)
      requires JoinedAwayFrom(n, gridIsOpen[..], uf.rootOf, iD)
      requires forall nb {:trigger JoinedIfOpen(gridIsOpen[..], uf.rootOf, iD, nb)} ::
        nb in done ==> JoinedIfOpen(gridIsOpen[..], uf.rootOf, iD, nb)
      modifies this, uf, uf.parent, uf.size, gridIsConnectedToTopRow, gridIsConnectedToBotRow
      ensures Inner()
      ensures JoinedAwayFrom(n, gridIsOpen[..], uf.rootOf, iD)
      ensures forall nb {:trigger JoinedIfOpen(gridIsOpen[..], uf.rootOf, iD, nb)} ::
        nb in done ==> JoinedIfOpen(gridIsOpen[..], uf.rootOf, iD, nb)
      ensures JoinedIfOpen(gridIsOpen[..], uf.rootOf, iD, neighbor)
      ensures Coarser(old(uf.rootOf), uf.rootOf)
      ensures old(percolates) ==> percolates
    {
      ghost var open, before := gridIsOpen[..], uf.rootOf;
      if neighbor.Some? && gridIsOpen[neighbor.value] {
        LinkTwoNodes(iD, neighbor.value);
        MergeKeepsJoins(n, open, before, uf.rootOf, iD, iD, neighbor.value, done);
        MergedIsCoarser(before, uf.rootOf, iD, neighbor.value);
      }
    }

    /**
     * The first half of open: marks the cell open, sets percolates for a one-cell grid, and
     * flags the cell when it lies in the first or the last row.
     */
    method MarkOpen(i: int, j: int, iD: int)
      requires Valid() && WithinRange(i) && WithinRange(j) && iD == (i - 1) * n + (j - 1)
      modifies this, gridIsOpen, gridIsConnectedToTopRow, gridIsConnectedToBotRow
      ensures Inner() && iD == Index(n, i, j)
      ensures gridIsOpen[..] == old(gridIsOpen[..])[iD := true]
      ensures JoinedAwayFrom(n, gridIsOpen[..], uf.rootOf, iD)
      ensures OpenedSites() == old(OpenedSites()) + {(i, j)}
      ensures old(percolates) ==> percolates
    {
      assert iD == Index(n, i, j);
      gridIsOpen[iD] := true;
      if n == 1 {
        percolates := true;
      }
      if i - 1 == 0 {
        gridIsConnectedToTopRow[iD] := true;
      }
      if i - 1 == n - 1 {
        gridIsConnectedToBotRow[iD] := true;
      }
      OpenKeepsInvariant(n, old(gridIsOpen[..]), uf.rootOf, old(gridIsConnectedToTopRow[..]), old(gridIsConnectedToBotRow[..]),
                         old(percolates), iD, gridIsOpen[..], gridIsConnectedToTopRow[..], gridIsConnectedToBotRow[..], percolates);
      SitesGrow(n, old(gridIsOpen[..]), i, j);
    }

    /**
     * The second half of open: links the cell just opened with each of its open neighbours,
     * below, above, to the left and to the right.
     */
    method JoinNeighbors(iD: int, jIndex: int)
      requires Inner() && 0 <= iD < nTimesN && gridIsOpen[iD] && jIndex == ColOf(n, iD)
      requires JoinedAwayFrom(n, gridIsOpen[..], uf.rootOf, iD)
      modifies this, uf, uf.parent, uf.size, gridIsConnectedToTopRow, gridIsConnectedToBotRow
      ensures Valid()
      ensures Coarser(old(uf.rootOf), uf.rootOf)
      ensures old(percolates) ==> percolates
    {
      ghost var open, rootOf0 := gridIsOpen[..], uf.rootOf;
      var south := SouthNeighbor(n, iD);
      LinkIfOpen(iD, south, []);
      ghost var rootOf1 := uf.rootOf;
      var north := NorthNeighbor(n, iD);
      LinkIfOpen(iD, north, [south]);
      CoarserTrans(rootOf0, rootOf1, uf.rootOf);
      rootOf1 := uf.rootOf;
      var west := WestNeighbor(n, jIndex, iD);
      LinkIfOpen(iD, west, [south, north]);
      CoarserTrans(rootOf0, rootOf1, uf.rootOf);
      rootOf1 := uf.rootOf;
      var east := EastNeighbor(n, jIndex, iD);
      LinkIfOpen(iD, east, [south, north, west]);
      CoarserTrans(rootOf0, rootOf1, uf.rootOf);
      assert gridIsOpen[..] == open;
      assert JoinedIfOpen(open, uf.rootOf, iD, south) && JoinedIfOpen(open, uf.rootOf, iD, north);
      assert JoinedIfOpen(open, uf.rootOf, iD, west);
      FinishJoins(n, open, uf.rootOf, iD);
    }

    /**
     * Opens the cell at row i, column j, flags it when it lies in the first or last row, and
     * joins it to each open neighbour; IndexOutOfRange, with nothing changed, when a
     * coordinate is off the grid.
     */
    method Open(i: int, j: int) returns (o: Outcome)
      requires Valid()
      modifies Repr
      ensures Valid()
      ensures o == if WithinRange(i) && WithinRange(j) then Pass else Fail(IndexOutOfRange)
      ensures o.Fail? ==> percolates == old(percolates) && gridIsOpen[..] == old(gridIsOpen[..])
      ensures o.Fail? ==> gridIsConnectedToTopRow[..] == old(gridIsConnectedToTopRow[..])
                          && gridIsConnectedToBotRow[..] == old(gridIsConnectedToBotRow[..])
                          && uf.rootOf == old(uf.rootOf)
      ensures o.Pass? ==> gridIsOpen[..] == old(gridIsOpen[..])[Index(n, i, j) := true]
      ensures OpenedSites() == old(OpenedSites()) + (if o.Pass? then {(i, j)} else {})
      ensures Coarser(old(uf.rootOf), uf.rootOf)
      ensures old(percolates) ==> percolates
    {
      if !(WithinRange(i) && WithinRange(j)) {
        return Fail(IndexOutOfRange);
      }
      var iIndex, jIndex := i - 1, j - 1;
      var iD := iIndex * n + jIndex;
      MarkOpen(i, j, iD);
      JoinNeighbors(iD, jIndex);
      o := Pass;
    }

    /**
     * Whether the cell at row i, column j is open; IndexOutOfRange when a coordinate is off
     * the grid.
     */
    function IsOpen(i: int, j: int): (r: Result<bool>)
      requires Valid()
      reads Repr
      ensures r.Err? <==> !(WithinRange(i) && WithinRange(j))
      ensures r.Err? ==> r.error == IndexOutOfRange
      ensures r.Ok? ==> (r.value <==> (i, j) in OpenedSites())
    {
      if !(WithinRange(i) && WithinRange(j)) then Err(IndexOutOfRange)
      else
        var iD := (i - 1) * n + (j - 1);
        assert iD == Index(n, i, j);
        Ok(gridIsOpen[iD])
    }

    /**
     * Whether the cell at row i, column j is full: open, and reached through open cells from
     * the first row. Only an open cell's root is looked up, and its top flag alone decides,
     * so a component that touches the last row lends no fullness (no backwash).
     */
    method IsFull(i: int, j: int) returns (r: Result<bool>)
      requires Valid()
      modifies uf.parent
      ensures Valid()
      ensures r.Err? <==> !(WithinRange(i) && WithinRange(j))
      ensures r.Err? ==> r.error == IndexOutOfRange
      ensures r.Ok? ==> (r.value <==> Full(n, gridIsOpen[..], Index(n, i, j)))
      ensures r.Ok? && r.value ==> (i, j) in OpenedSites()
    {
      if !(WithinRange(i) && WithinRange(j)) {
        return Err(IndexOutOfRange);
      }
      var iIndex, jIndex := i - 1, j - 1;
      var iD := iIndex * n + jIndex;
      assert iD == Index(n, i, j);
      if !gridIsOpen[iD] {
        return Ok(false);
      }
      TopFlagIsFull(n, gridIsOpen[..], uf.rootOf, gridIsConnectedToTopRow[..], gridIsConnectedToBotRow[..],
                    percolates, iD);
      var root := uf.Find(iD);
      return Ok(gridIsConnectedToTopRow[root.value]);
    }

    /** Whether open cells lead from the first row to the last. */
    function Percolates(): (p: bool)
      requires Valid()
      reads Repr
      ensures p <==> PercolatesThrough(n, gridIsOpen[..])
    {
      SpansIsPercolation(n, gridIsOpen[..], uf.rootOf);
      percolates
    }
  }
}
