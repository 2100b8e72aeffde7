/**
 * Weighted quick-union by size with path halving, over two parallel int arrays.
 * Element indices are 0 .. N-1.
 */
module UnionFind {
  import opened Outcomes
  import opened Forest

  class WeightedQuickUnionUF {
    /** parent[i] is the parent of i; i is a root when parent[i] == i. */
    const parent: array<int>
    /** size[r] is the number of elements in the tree rooted at r (meaningful at roots only). */
    const size: array<int>
    /** The number of components. */
    var count: int

    /** The root of every element's component. */
    ghost var rootOf: seq<int>
    /** A measure that strictly decreases from every element to its parent. */
    ghost var rank: seq<nat>

    ghost predicate Valid()
      reads this, parent, size
    {
      && parent != size
      && size.Length == parent.Length
      && Invariant(parent[..], size[..], rank, rootOf, count)
    }

    /** N isolated components 0 .. N-1. */
    constructor (N: nat)
      ensures Valid() && fresh(parent) && fresh(size)
      ensures parent.Length == N && count == N
      ensures forall i :: 0 <= i < N ==> parent[i] == i && size[i] == 1
      ensures rootOf == Identity(N)
    {
      var p := new int[N];
      var s := new int[N];
      for i := 0 to N
        invariant forall k :: 0 <= k < i ==> p[k] == k && s[k] == 1
      {
        p[i] := i;
        s[i] := 1;
      }
      FreshForest(N);
      assert p[..] == Identity(N);
      assert s[..] == seq(N, i => 1);
      parent, size, count := p, s, N;
      rootOf, rank := Identity(N), seq(N, i => 0);
    }

    /** The number of components, which is the number of roots. */
    function Count(): (c: int)
      reads this, parent, size
      requires Valid()
      ensures c == |Roots(parent[..])|
      ensures parent.Length >= 1 ==> 1 <= c <= parent.Length
    {
      RootsBounded(parent[..], rank, rootOf);
      count
    }

    /** Whether p names an element (the check that guards find). */
    predicate Validate(p: int)
      reads this
    {
      0 <= p < parent.Length
    }

    /**
     * The root of p's component. On the way up every visited element is redirected to its
     * grandparent, which moves no element to another component. IndexOutOfRange, with
     * nothing changed, when p names no element.
     */
    method Find(p: int) returns (r: Result<int>)
      requires Valid()
      modifies parent
      ensures Valid()
      ensures r.Err? <==> !Validate(p)
      ensures r.Err? ==> r.error == IndexOutOfRange && parent[..] == old(parent[..])
      ensures r.Ok? ==> r.value == rootOf[p] && parent[r.value] == r.value
      ensures r.Ok? ==> r.value == Walk(old(parent[..]), rank, p)
      ensures Roots(parent[..]) == old(Roots(parent[..]))
      ensures forall x :: 0 <= x < parent.Length ==> Walk(parent[..], rank, x) == Walk(old(parent[..]), rank, x)
    {
      if !Validate(p) {
        return Err(IndexOutOfRange);
      }
      RootOfIsWalk(parent[..], rank, rootOf, p);
      var x := p;
      while x != parent[x]
        invariant 0 <= x < parent.Length
        invariant Valid()
        invariant rootOf[x] == rootOf[p]
        invariant Roots(parent[..]) == old(Roots(parent[..]))
        decreases rank[x]
      {
        ghost var before := parent[..];
        HalvingKeepsRoots(before, rank, rootOf, x);
        parent[x] := parent[parent[x]];
        assert parent[..] == before[x := before[before[x]]];
        x := parent[x];
      }
      r := Ok(x);
      forall y | 0 <= y < parent.Length
        ensures Walk(parent[..], rank, y) == Walk(old(parent[..]), rank, y)
      {
        RootOfIsWalk(parent[..], rank, rootOf, y);
        RootOfIsWalk(old(parent[..]), rank, rootOf, y);
      }
    }

    /** Whether p and q are in the same component; IndexOutOfRange when either names no element. */
    method Connected(p: int, q: int) returns (r: Result<bool>)
      requires Valid()
      modifies parent
      ensures Valid()
      ensures r.Err? <==> !(Validate(p) && Validate(q))
      ensures r.Err? ==> r.error == IndexOutOfRange
      ensures r.Ok? ==> (r.value <==> rootOf[p] == rootOf[q])
      ensures Roots(parent[..]) == old(Roots(parent[..]))
    {
      var rootP := Find(p);
      if rootP.Err? {
        return Err(rootP.error);
      }
      var rootQ := Find(q);
      if rootQ.Err? {
        return Err(rootQ.error);
      }
      return Ok(rootP.value == rootQ.value);
    }

    /** Hangs root loser below root winner and adds the loser's size to the winner's. */
    method Link(loser: int, winner: int)
      requires Valid() && Validate(loser) && Validate(winner) && loser != winner
      requires parent[loser] == loser && parent[winner] == winner
      modifies this, parent, size
      ensures Valid()
      ensures rootOf == Relink(old(rootOf), loser, winner)
      ensures parent[loser] == winner
      ensures size[winner] == old(size[winner] + size[loser])
      ensures forall k :: 0 <= k < size.Length && k != winner ==> size[k] == old(size[k])
      ensures count == old(count) - 1
    {
      ghost var parent0, size0, rank0, rootOf0 := parent[..], size[..], rank, rootOf;
      parent[loser] := winner;
      size[winner] := size[winner] + size[loser];
      count := count - 1;
      rank := Lift(rank, rootOf, loser, rank[winner] + 1);
      rootOf := Relink(rootOf, loser, winner);
      assert UpdatedAt(parent0, parent[..], loser, winner);
      assert UpdatedAt(size0, size[..], winner, size0[winner] + size0[loser]);
      assert Invariant(parent[..], size[..], rank, rootOf, count) by {
        LinkKeepsInvariantAt(parent0, size0, rank0, rootOf0, count + 1, loser, winner, parent[..], size[..]);
      }
    }

    /**
     * Merges the components of p and q, hanging the smaller tree below the root of the
     * larger (the tree of q's root on a tie goes below p's root). IndexOutOfRange when p or
     * q names no element; the partition, the sizes and the count are then unchanged.
     */
    method Union(p: int, q: int) returns (o: Outcome)
      requires Valid()
      modifies this, parent, size
      ensures Valid()
      ensures o.Fail? <==> !(Validate(p) && Validate(q))
      ensures o.Fail? ==> && o.error == IndexOutOfRange && rootOf == old(rootOf) && count == old(count)
                          && size[..] == old(size[..])
      ensures o.Pass? ==> Merged(old(rootOf), rootOf, p, q)
      ensures o.Pass? ==>
        var rootP, rootQ := old(rootOf[p]), old(rootOf[q]);
        var (loser, winner) := if old(size[rootP]) < old(size[rootQ]) then (rootP, rootQ) else (rootQ, rootP);
        if rootP == rootQ then
          && rootOf == old(rootOf) && count == old(count)
          && forall k :: 0 <= k < size.Length ==> size[k] == old(size[k])
        else
          && rootOf == Relink(old(rootOf), loser, winner)
          && parent[loser] == winner
          && size[winner] == old(size[winner] + size[loser])
          && (forall k :: 0 <= k < size.Length && k != winner ==> size[k] == old(size[k]))
          && count == old(count) - 1
    {
      var foundP := Find(p);
      if foundP.Err? {
        return Fail(foundP.error);
      }
      var foundQ := Find(q);
      if foundQ.Err? {
        return Fail(foundQ.error);
      }
      var rootP, rootQ := foundP.value, foundQ.value;
      o := Pass;
      if rootP == rootQ {
        MergedSame(rootOf, p, q);
        return;
      }
      if size[rootP] < size[rootQ] {
        RelinkMerges(rootOf, rootP, rootQ, p, q);
        Link(rootP, rootQ);
      } else {
        RelinkMerges(rootOf, rootQ, rootP, p, q);
        Link(rootQ, rootP);
      }
    }
  }
}
