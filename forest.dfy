/**
 * Facts about a disjoint-set forest given as plain sequences: the parent links,
 * a ghost rank that strictly decreases towards the root (the termination measure of
 * every walk up the forest), and a ghost labelling that names the root of every element.
 */
module Forest {

  /** Every parent link stays inside the forest and strictly lowers the rank. */
  ghost predicate Acyclic(parent: seq<int>, rank: seq<nat>)
  {
    && |parent| == |rank|
    && (forall i :: 0 <= i < |parent| ==> 0 <= parent[i] < |parent|)
    && (forall i :: 0 <= i < |parent| && parent[i] != i ==> rank[parent[i]] < rank[i])
  }

  /** The root reached from p by following parent links. */
  ghost function Walk(parent: seq<int>, rank: seq<nat>, p: int): (r: int)
    requires Acyclic(parent, rank) && 0 <= p < |parent|
    ensures 0 <= r < |parent| && parent[r] == r
    decreases rank[p]
  {
    if parent[p] == p then p else Walk(parent, rank, parent[p])
  }

  /**
   * The labelling rootOf names, for every element, a root, which is shared with the
   * element's parent; a root labels itself.
   */
  ghost predicate Consistent(parent: seq<int>, rank: seq<nat>, rootOf: seq<int>)
  {
    && Acyclic(parent, rank)
    && |rootOf| == |parent|
    && (forall i :: 0 <= i < |parent| ==> 0 <= rootOf[i] < |parent|)
    && (forall i :: 0 <= i < |parent| ==> rootOf[parent[i]] == rootOf[i])
    && (forall i :: 0 <= i < |parent| ==> parent[rootOf[i]] == rootOf[i])
    && (forall i :: 0 <= i < |parent| && parent[i] == i ==> rootOf[i] == i)
  }

  /** The elements whose component is identified by r. */
  ghost function Members(rootOf: seq<int>, r: int): set<int>
  {
    set i | 0 <= i < |rootOf| && rootOf[i] == r
  }

  /** The roots of the forest, one per component. */
  ghost function Roots(parent: seq<int>): set<int>
  {
    set i | 0 <= i < |parent| && parent[i] == i
  }

  /** The labelling after the component of loser has been merged into that of winner. */
  ghost function Relink(rootOf: seq<int>, loser: int, winner: int): seq<int>
  {
    seq(|rootOf|, i requires 0 <= i < |rootOf| => if rootOf[i] == loser then winner else rootOf[i])
  }

  /** The ranks after the tree of loser has been hung below a root of rank lift - 1. */
  ghost function Lift(rank: seq<nat>, rootOf: seq<int>, loser: int, lift: nat): seq<nat>
    requires |rank| == |rootOf|
  {
    seq(|rank|, i requires 0 <= i < |rank| => if rootOf[i] == loser then rank[i] + lift else rank[i])
  }

  /** At every root, size holds the number of elements of the root's component. */
  ghost predicate SizesAgree(parent: seq<int>, size: seq<int>, rootOf: seq<int>)
  {
    && |size| == |parent|
    && forall r :: 0 <= r < |parent| && parent[r] == r ==> size[r] == |Members(rootOf, r)|
  }

  /** x and y are elements of the labelling rootOf that carry the same label. */
  ghost predicate Together(rootOf: seq<int>, x: int, y: int)
  {
    0 <= x < |rootOf| && 0 <= y < |rootOf| && rootOf[x] == rootOf[y]
  }

  /** rootOf2 is the partition rootOf after the components of a and b have been joined. */
  ghost predicate Merged(rootOf: seq<int>, rootOf2: seq<int>, a: int, b: int)
  {
    && |rootOf2| == |rootOf|
    && forall x, y {:trigger Together(rootOf2, x, y)} :: 0 <= x < |rootOf| && 0 <= y < |rootOf| ==>
         (Together(rootOf2, x, y) <==>
            || Together(rootOf, x, y)
            || (Together(rootOf, x, a) && Together(rootOf, y, b))
            || (Together(rootOf, x, b) && Together(rootOf, y, a)))
  }

  /** Every two elements together in rootOf are still together in rootOf2. */
  ghost predicate Coarser(rootOf: seq<int>, rootOf2: seq<int>)
  {
    && |rootOf| <= |rootOf2|
    && forall x, y {:trigger Together(rootOf, x, y)} :: Together(rootOf, x, y) ==> Together(rootOf2, x, y)
  }

  /** Following parent links from any element reaches the root its label names. */
  lemma {:induction false} RootOfIsWalk(parent: seq<int>, rank: seq<nat>, rootOf: seq<int>, p: int)
    requires Consistent(parent, rank, rootOf) && 0 <= p < |parent|
    ensures rootOf[p] == Walk(parent, rank, p)
    decreases rank[p]
  {
    if parent[p] != p {
      RootOfIsWalk(parent, rank, rootOf, parent[p]);
    }
  }

  /** Two consistent labellings of the same links agree everywhere. */
  lemma LabellingIsUnique(parent: seq<int>, rank: seq<nat>, rootOf: seq<int>, rootOf2: seq<int>)
    requires Consistent(parent, rank, rootOf) && Consistent(parent, rank, rootOf2)
    ensures rootOf == rootOf2
  {
    forall p | 0 <= p < |parent| ensures rootOf[p] == rootOf2[p] {
      RootOfIsWalk(parent, rank, rootOf, p);
      RootOfIsWalk(parent, rank, rootOf2, p);
    }
  }

  /**
   * Path halving: redirecting p to its grandparent keeps the forest consistent under the
   * same labelling, so no element changes component, and the set of roots is unchanged.
   */
  lemma HalvingKeepsRoots(parent: seq<int>, rank: seq<nat>, rootOf: seq<int>, p: int)
    requires Consistent(parent, rank, rootOf) && 0 <= p < |parent|
    ensures Consistent(parent[p := parent[parent[p]]], rank, rootOf)
    ensures Roots(parent[p := parent[parent[p]]]) == Roots(parent)
    ensures forall x :: 0 <= x < |parent| ==>
              Walk(parent[p := parent[parent[p]]], rank, x) == Walk(parent, rank, x)
  {
    var halved := parent[p := parent[parent[p]]];
    assert Consistent(halved, rank, rootOf);
    assert Roots(halved) == Roots(parent) by {
      forall i | 0 <= i < |parent| ensures (halved[i] == i) == (parent[i] == i) {
        if i == p && parent[p] != p {
          assert rank[parent[parent[p]]] <= rank[parent[p]] < rank[p];
        }
      }
    }
    forall x | 0 <= x < |parent| ensures Walk(halved, rank, x) == Walk(parent, rank, x) {
      RootOfIsWalk(parent, rank, rootOf, x);
      RootOfIsWalk(halved, rank, rootOf, x);
    }
  }

  /**
   * Hanging root loser below root winner keeps the forest consistent once the loser's
   * tree is relabelled and its ranks lifted above the winner's.
   */
  lemma LinkKeepsConsistent(parent: seq<int>, rank: seq<nat>, rootOf: seq<int>, loser: int, winner: int)
    requires Consistent(parent, rank, rootOf)
    requires 0 <= loser < |parent| && 0 <= winner < |parent| && loser != winner
    requires parent[loser] == loser && parent[winner] == winner
    ensures Consistent(parent[loser := winner], Lift(rank, rootOf, loser, rank[winner] + 1),
                       Relink(rootOf, loser, winner))
    ensures Roots(parent[loser := winner]) == Roots(parent) - {loser}
  {
    var parent2 := parent[loser := winner];
    var rank2 := Lift(rank, rootOf, loser, rank[winner] + 1);
    var rootOf2 := Relink(rootOf, loser, winner);
    assert rootOf[loser] == loser && rootOf[winner] == winner;
    assert Acyclic(parent2, rank2);
    assert Consistent(parent2, rank2, rootOf2);
    assert Roots(parent2) == Roots(parent) - {loser};
  }

  /** The whole state of a weighted quick-union forest, count being its number of components. */
  ghost predicate Invariant(parent: seq<int>, size: seq<int>, rank: seq<nat>, rootOf: seq<int>, count: int)
  {
    && Consistent(parent, rank, rootOf)
    && SizesAgree(parent, size, rootOf)
    && count == |Roots(parent)|
  }

  /**
   * Hanging root loser below root winner, adding its size to the winner's and counting one
   * component less, keeps the forest's invariant.
   */
  lemma LinkKeepsInvariant(parent: seq<int>, size: seq<int>, rank: seq<nat>, rootOf: seq<int>, count: int,
                           loser: int, winner: int)
    requires Invariant(parent, size, rank, rootOf, count)
    requires 0 <= loser < |parent| && 0 <= winner < |parent| && loser != winner
    requires parent[loser] == loser && parent[winner] == winner
    ensures Invariant(parent[loser := winner], size[winner := size[winner] + size[loser]],
                      Lift(rank, rootOf, loser, rank[winner] + 1), Relink(rootOf, loser, winner), count - 1)
  {
    LinkKeepsConsistent(parent, rank, rootOf, loser, winner);
    LinkKeepsSizes(parent, rank, size, rootOf, loser, winner);
    assert loser in Roots(parent);
  }

  /** s2 is s with the entry at k replaced by v, stated entry by entry. */
  ghost predicate UpdatedAt(s: seq<int>, s2: seq<int>, k: int, v: int)
  {
    && |s2| == |s| && 0 <= k < |s| && s2[k] == v
    && forall i :: 0 <= i < |s| && i != k ==> s2[i] == s[i]
  }

  /** An entry-by-entry update is the sequence update. */
  lemma UpdatedAtIsUpdate(s: seq<int>, s2: seq<int>, k: int, v: int)
    requires UpdatedAt(s, s2, k, v)
    ensures s2 == s[k := v]
  {
  }

  /** LinkKeepsInvariant, for links and sizes given entry by entry. */
  lemma LinkKeepsInvariantAt(parent: seq<int>, size: seq<int>, rank: seq<nat>, rootOf: seq<int>, count: int,
                             loser: int, winner: int, parent2: seq<int>, size2: seq<int>)
    requires Invariant(parent, size, rank, rootOf, count)
    requires 0 <= loser < |parent| && 0 <= winner < |parent| && loser != winner
    requires parent[loser] == loser && parent[winner] == winner
    requires UpdatedAt(parent, parent2, loser, winner)
    requires UpdatedAt(size, size2, winner, size[winner] + size[loser])
    ensures Invariant(parent2, size2, Lift(rank, rootOf, loser, rank[winner] + 1), Relink(rootOf, loser, winner), count - 1)
  {
    UpdatedAtIsUpdate(parent, parent2, loser, winner);
    UpdatedAtIsUpdate(size, size2, winner, size[winner] + size[loser]);
    LinkKeepsInvariant(parent, size, rank, rootOf, count, loser, winner);
  }

  /** Linking keeps every root's size equal to the size of its component. */
  lemma LinkKeepsSizes(parent: seq<int>, rank: seq<nat>, size: seq<int>, rootOf: seq<int>, loser: int, winner: int)
    requires Consistent(parent, rank, rootOf) && SizesAgree(parent, size, rootOf)
    requires 0 <= loser < |parent| && 0 <= winner < |parent| && loser != winner
    requires parent[loser] == loser && parent[winner] == winner
    ensures SizesAgree(parent[loser := winner], size[winner := size[winner] + size[loser]],
                       Relink(rootOf, loser, winner))
  {
    RelinkMembers(rootOf, loser, winner);
  }

  /** After a link the winner's component is exactly the two old ones; others keep theirs. */
  lemma RelinkMembers(rootOf: seq<int>, loser: int, winner: int)
    requires loser != winner
    ensures Members(Relink(rootOf, loser, winner), winner) == Members(rootOf, loser) + Members(rootOf, winner)
    ensures Members(rootOf, loser) !! Members(rootOf, winner)
    ensures |Members(Relink(rootOf, loser, winner), winner)| == |Members(rootOf, loser)| + |Members(rootOf, winner)|
    ensures Members(Relink(rootOf, loser, winner), loser) == {}
    ensures forall r :: r != loser && r != winner ==> Members(Relink(rootOf, loser, winner), r) == Members(rootOf, r)
  {
    var rootOf2 := Relink(rootOf, loser, winner);
    assert Members(rootOf2, winner) == Members(rootOf, loser) + Members(rootOf, winner);
    assert Members(rootOf2, loser) == {};
  }

  /**
   * Linking two distinct roots joins exactly the components of any a and b whose roots
   * they are.
   */
  lemma RelinkMerges(rootOf: seq<int>, loser: int, winner: int, a: int, b: int)
    requires 0 <= a < |rootOf| && 0 <= b < |rootOf| && loser != winner
    requires (rootOf[a] == loser && rootOf[b] == winner) || (rootOf[a] == winner && rootOf[b] == loser)
    ensures Merged(rootOf, Relink(rootOf, loser, winner), a, b)
  {
  }

  /** Joining two components never separates elements, and puts a and b together. */
  lemma MergedIsCoarser(rootOf: seq<int>, rootOf2: seq<int>, a: int, b: int)
    requires 0 <= a < |rootOf| && 0 <= b < |rootOf| && Merged(rootOf, rootOf2, a, b)
    ensures Coarser(rootOf, rootOf2) && rootOf2[a] == rootOf2[b]
  {
    assert Together(rootOf2, a, b);
    forall x, y | Together(rootOf, x, y) ensures Together(rootOf2, x, y) {
      assert Together(rootOf2, x, y);
    }
  }

  /** Coarsening twice is coarsening. */
  lemma CoarserTrans(r1: seq<int>, r2: seq<int>, r3: seq<int>)
    requires Coarser(r1, r2) && Coarser(r2, r3)
    ensures Coarser(r1, r3)
  {
    forall x, y | Together(r1, x, y) ensures Together(r3, x, y) {
      assert Together(r2, x, y);
    }
  }

  /** Joining two elements already together changes no one's companions. */
  lemma MergedSame(rootOf: seq<int>, a: int, b: int)
    requires 0 <= a < |rootOf| && 0 <= b < |rootOf| && rootOf[a] == rootOf[b]
    ensures Merged(rootOf, rootOf, a, b)
  {
    forall x, y | 0 <= x < |rootOf| && 0 <= y < |rootOf|
      ensures Together(rootOf, x, y) <==>
            || Together(rootOf, x, y)
            || (Together(rootOf, x, a) && Together(rootOf, y, b))
            || (Together(rootOf, x, b) && Together(rootOf, y, a))
    {
    }
  }

  /** The elements 0 .. n-1. */
  ghost function Range(n: nat): set<int>
  {
    if n == 0 then {} else Range(n - 1) + {n - 1}
  }

  /** Range(n) holds exactly 0 .. n-1, which number n. */
  lemma {:induction false} RangeSize(n: nat)
    ensures forall x :: x in Range(n) <==> 0 <= x < n
    ensures |Range(n)| == n
  {
    if n > 0 {
      RangeSize(n - 1);
    }
  }

  /** The links (and labels) of a fresh forest, where every element is its own parent. */
  ghost function Identity(n: nat): (ids: seq<int>)
    ensures |ids| == n && forall i :: 0 <= i < n ==> ids[i] == i
  {
    seq(n, i => i)
  }

  /** A fresh forest is consistent, has every element as a root and singleton components. */
  lemma FreshForest(n: nat)
    ensures Consistent(Identity(n), seq(n, i => 0), Identity(n))
    ensures |Roots(Identity(n))| == n
    ensures SizesAgree(Identity(n), seq(n, i => 1), Identity(n))
  {
    var ids := Identity(n);
    RangeSize(n);
    assert Roots(ids) == Range(n);
    forall r | 0 <= r < n ensures |Members(ids, r)| == 1 {
      assert Members(ids, r) == {r};
    }
  }

  /** A nonempty consistent forest has between one and n roots. */
  lemma RootsBounded(parent: seq<int>, rank: seq<nat>, rootOf: seq<int>)
    requires Consistent(parent, rank, rootOf)
    ensures |Roots(parent)| <= |parent|
    ensures |parent| >= 1 ==> 1 <= |Roots(parent)|
  {
    var all := Range(|parent|);
    RangeSize(|parent|);
    if |parent| >= 1 {
      assert rootOf[0] in Roots(parent);
    }
    assert Roots(parent) <= all;
    assert all == Roots(parent) + (all - Roots(parent));
  }
}
