/** The forest behind the union-find structure of maxSpacingKClustering.py and
    kClustersHammingDistance.py (the two files carry the same class). Node x points at
    id[x]; a root points at itself. Along every parent link the rank strictly grows, which
    is what makes the walk to the root terminate. */
module DisjointSets {

  /** Every link stays inside the forest and leads to a node of higher rank. */
  ghost predicate Ranked(id: seq<nat>, rank: seq<nat>)
  {
    |id| == |rank|
    && (forall x :: 0 <= x < |id| ==> id[x] < |id|)
    && (forall x :: 0 <= x < |id| && id[x] != x ==> rank[x] < rank[id[x]])
  }

  /** The nodes of rank above that of x: the walk from x can only reach those. */
  ghost function Above(rank: seq<nat>, x: nat): set<nat>
    requires x < |rank|
  {
    set y: nat | y < |rank| && rank[y] > rank[x]
  }

  lemma AboveShrinks(rank: seq<nat>, x: nat, y: nat)
    requires x < |rank| && y < |rank| && rank[x] < rank[y]
    ensures Above(rank, y) < Above(rank, x)
  {
    assert y in Above(rank, x) && y !in Above(rank, y);
  }

  /** The root of x's tree. */
  ghost function Root(id: seq<nat>, rank: seq<nat>, x: nat): (r: nat)
    requires Ranked(id, rank) && x < |id|
    ensures r < |id| && id[r] == r
    ensures id[x] == x ==> r == x
    decreases Above(rank, x)
  {
    if id[x] == x then x
    else
      AboveShrinks(rank, x, id[x]);
      Root(id, rank, id[x])
  }

  /** y lies on the walk from p to its root. */
  ghost predicate OnPath(id: seq<nat>, rank: seq<nat>, p: nat, y: nat)
    requires Ranked(id, rank) && p < |id|
    decreases Above(rank, p)
  {
    p == y
    || (id[p] != p && (AboveShrinks(rank, p, id[p]); OnPath(id, rank, id[p], y)))
  }

  /** The roots of the forest, one per set. */
  ghost function Roots(id: seq<nat>): set<nat>
  {
    set x: nat | x < |id| && id[x] == x
  }

  /** A node below its root has a smaller rank than the root. */
  lemma {:induction false} RankBelowRoot(id: seq<nat>, rank: seq<nat>, x: nat)
    requires Ranked(id, rank) && x < |id| && id[x] != x
    ensures rank[x] < rank[Root(id, rank, x)]
    decreases Above(rank, x)
  {
    AboveShrinks(rank, x, id[x]);
    if id[id[x]] != id[x] {
      RankBelowRoot(id, rank, id[x]);
    }
  }

  /** The walk from p reaches the node it stops at: every node on it has p's root. */
  lemma {:induction false} PathRoot(id: seq<nat>, rank: seq<nat>, p: nat, y: nat)
    requires Ranked(id, rank) && p < |id| && y < |id| && OnPath(id, rank, p, y)
    ensures Root(id, rank, y) == Root(id, rank, p)
    decreases Above(rank, p)
  {
    if p != y {
      AboveShrinks(rank, p, id[p]);
      PathRoot(id, rank, id[p], y);
    }
  }

  /** The walk from p passes through id[p] when p is not a root. */
  lemma PathStep(id: seq<nat>, rank: seq<nat>, p0: nat, p: nat)
    requires Ranked(id, rank) && p0 < |id| && p < |id| && OnPath(id, rank, p0, p) && id[p] != p
    ensures OnPath(id, rank, p0, id[p])
    decreases Above(rank, p0)
  {
    if p0 != p {
      AboveShrinks(rank, p0, id[p0]);
      PathStep(id, rank, id[p0], p);
    }
  }

  /** Pointing p straight at its root keeps the ranks ordered and every root. */
  lemma CompressRanked(id: seq<nat>, rank: seq<nat>, p: nat)
    requires Ranked(id, rank) && p < |id| && id[p] != p
    ensures Ranked(id[p := Root(id, rank, p)], rank)
  {
    RankBelowRoot(id, rank, p);
  }

  lemma {:induction false} CompressRoot(id: seq<nat>, rank: seq<nat>, p: nat, y: nat)
    requires Ranked(id, rank) && p < |id| && y < |id| && id[p] != p
    requires Ranked(id[p := Root(id, rank, p)], rank)
    ensures Root(id[p := Root(id, rank, p)], rank, y) == Root(id, rank, y)
    decreases Above(rank, y)
  {
    var id' := id[p := Root(id, rank, p)];
    if id[y] != y {
      AboveShrinks(rank, y, id[y]);
      if y == p {
        assert id'[id'[p]] == id'[p];
      } else {
        CompressRoot(id, rank, p, id[y]);
      }
    }
  }

  /** Path compression changes no root and no node's root. */
  lemma CompressRoots(id: seq<nat>, rank: seq<nat>, p: nat)
    requires Ranked(id, rank) && p < |id| && id[p] != p
    ensures Ranked(id[p := Root(id, rank, p)], rank)
    ensures forall y :: 0 <= y < |id| ==>
      Root(id[p := Root(id, rank, p)], rank, y) == Root(id, rank, y)
    ensures Roots(id[p := Root(id, rank, p)]) == Roots(id)
  {
    CompressRanked(id, rank, p);
    forall y | 0 <= y < |id|
      ensures Root(id[p := Root(id, rank, p)], rank, y) == Root(id, rank, y)
    {
      CompressRoot(id, rank, p, y);
    }
  }

  /** Linking root i under root j, with rank' the ranks after the link. */
  lemma {:induction false} LinkRoot(id: seq<nat>, rank: seq<nat>, rank': seq<nat>, i: nat,
                                    j: nat, y: nat)
    requires Ranked(id, rank) && i < |id| && j < |id| && y < |id| && i != j
    requires id[i] == i && id[j] == j
    requires Ranked(id[i := j], rank')
    ensures Root(id[i := j], rank', y) == if Root(id, rank, y) == i then j else Root(id, rank, y)
    decreases Above(rank, y)
  {
    if id[y] != y {
      AboveShrinks(rank, y, id[y]);
      LinkRoot(id, rank, rank', i, j, id[y]);
    }
  }

  /** The rank conditions under which linking i under j keeps the forest ranked. */
  lemma LinkRanked(id: seq<nat>, rank: seq<nat>, rank': seq<nat>, i: nat, j: nat)
    requires Ranked(id, rank) && i < |id| && j < |id| && i != j
    requires id[i] == i && id[j] == j && |rank'| == |rank|
    requires rank'[i] < rank'[j]
    requires forall x :: 0 <= x < |rank| && x != j ==> rank'[x] == rank[x]
    requires rank[j] <= rank'[j]
    ensures Ranked(id[i := j], rank')
  {
  }

  /** Linking two roots removes exactly one root. */
  lemma LinkRemovesRoot(id: seq<nat>, i: nat, j: nat)
    requires i < |id| && j < |id| && i != j && id[i] == i && id[j] == j
    ensures Roots(id[i := j]) == Roots(id) - {i}
    ensures |Roots(id[i := j])| == |Roots(id)| - 1
  {
    assert Roots(id[i := j]) == Roots(id) - {i};
  }

  /** Initially every node is its own root. */
  lemma {:induction false} AllRoots(n: nat)
    ensures |Roots(seq(n, x => x))| == n
  {
    if n > 0 {
      AllRoots(n - 1);
      var s := seq(n, x => x);
      assert Roots(s) == Roots(seq(n - 1, x => x)) + {n - 1};
    }
  }

  /** The ranks after union of the sets with roots i and j: the rank of i goes up by
      one when the two ranks are equal and the roots differ. */
  function RanksAfterUnion(rank: seq<nat>, i: nat, j: nat): seq<nat>
    requires i < |rank| && j < |rank|
  {
    if i != j && rank[i] == rank[j] then rank[i := rank[i] + 1] else rank
  }

  /** The root, after union of the sets with roots i and j, of a node whose root was r:
      the two sets share the root of higher rank, that of i on equal ranks. */
  function RootAfterUnion(rank: seq<nat>, i: nat, j: nat, r: nat): nat
    requires i < |rank| && j < |rank|
  {
    if r != i && r != j then r else if rank[i] < rank[j] then j else i
  }
}

/** The union-find class of maxSpacingKClustering.py (repeated unchanged in
    kClustersHammingDistance.py): parent links with path compression and union by rank,
    and the number of clusters. */
module UnionFind {
  import opened DisjointSets

  class UnionFind {
    var id: seq<nat>
    var rank: seq<nat>
    var count: int

    /** The forest is ranked and count is one less than the number of trees:
        UnionFind(N) has the N + 1 nodes 0..N, one more than the clustering code uses. */
    ghost predicate Valid()
      reads this
    {
      Ranked(id, rank) && |id| >= 1 && count == |Roots(id)| - 1
    }

    /** UnionFind(N): nodes 0..N, each its own root with rank 0, and N clusters. */
    constructor (n: nat)
      ensures Valid() && |id| == n + 1
      ensures id == seq(n + 1, x => x) && rank == seq(n + 1, _ => 0) && count == n
    {
      id := seq(n + 1, x => x);
      rank := seq(n + 1, _ => 0);
      count := n;
      AllRoots(n + 1);
    }

    /** count(): the number of clusters. */
    function Count(): (c: int)
      reads this
      requires Valid()
      ensures c == |Roots(id)| - 1
    {
      count
    }

    /** find(p): walk to the root, then point every node of the walk straight at it. No
        node changes its root, and nodes off the walk keep their links. */
    method Find(p: nat) returns (root: nat)
      requires Valid() && p < |id|
      modifies this
      ensures Valid() && rank == old(rank) && count == old(count) && |id| == old(|id|)
      ensures root == Root(old(id), old(rank), p)
      ensures forall y :: 0 <= y < |id| ==> Root(id, rank, y) == Root(old(id), old(rank), y)
      ensures forall y :: 0 <= y < |id| ==>
        id[y] == if OnPath(old(id), old(rank), p, y) then root else old(id)[y]
    {
      root := FindRoot(p);
      Compress(p, root);
    }

    /** connected(p, q): whether p and q have the same root. */
    method Connected(p: nat, q: nat) returns (b: bool)
      requires Valid() && p < |id| && q < |id|
      modifies this
      ensures Valid() && rank == old(rank) && count == old(count) && |id| == old(|id|)
      ensures b <==> Root(old(id), old(rank), p) == Root(old(id), old(rank), q)
      ensures forall y :: 0 <= y < |id| ==> Root(id, rank, y) == Root(old(id), old(rank), y)
    {
      var rootP := Find(p);
      var rootQ := Find(q);
      b := rootP == rootQ;
    }

    /** union(p, q): link the root of lower rank under the other, the root of q under
        that of p on equal ranks (raising the rank of p's root). Exactly the two sets
        of p and q merge, and count drops by one, unless they were one set already. */
    method Union(p: nat, q: nat)
      requires Valid() && p < |id| && q < |id|
      modifies this
      ensures Valid() && |id| == old(|id|)
      ensures Root(id, rank, p) == Root(id, rank, q)
      ensures var i := Root(old(id), old(rank), p);
        var j := Root(old(id), old(rank), q);
        count == (if i == j then old(count) else old(count) - 1)
        && rank == RanksAfterUnion(old(rank), i, j)
        && forall y :: 0 <= y < |id| ==>
             Root(id, rank, y) == RootAfterUnion(old(rank), i, j, Root(old(id), old(rank), y))
    {
      var i := Find(p);
      var j := Find(q);
      if i == j {
        return;
      }
      LinkRoots(i, j);
    }

    /** The rank rule of union for two different roots i and j. */
    method LinkRoots(i: nat, j: nat)
      requires Valid() && i < |id| && j < |id| && i != j && id[i] == i && id[j] == j
      modifies this
      ensures Valid() && |id| == old(|id|) && count == old(count) - 1
      ensures rank == RanksAfterUnion(old(rank), i, j)
      ensures forall y :: 0 <= y < |id| ==>
        Root(id, rank, y) == RootAfterUnion(old(rank), i, j, Root(old(id), old(rank), y))
    {
      ghost var id0, rank0 := id, rank;
      if rank[i] < rank[j] {
        LinkRanked(id, rank, rank, i, j);
        id := id[i := j];
        LinkAll(id0, rank0, rank, i, j);
      } else if rank[i] > rank[j] {
        LinkRanked(id, rank, rank, j, i);
        id := id[j := i];
        LinkAll(id0, rank0, rank, j, i);
      } else {
        LinkRanked(id, rank, rank[i := rank[i] + 1], j, i);
        id := id[j := i];
        rank := rank[i := rank[i] + 1];
        LinkAll(id0, rank0, rank, j, i);
      }
      count := count - 1;
    }

    /** The first loop of find: follow the links from p up to the root. */
    method FindRoot(p: nat) returns (root: nat)
      requires Valid() && p < |id|
      ensures root == Root(id, rank, p) && OnPath(id, rank, p, root)
    {
      root := p;
      while root != id[root]
        invariant root < |id| && Root(id, rank, root) == Root(id, rank, p)
        invariant OnPath(id, rank, p, root)
        decreases Above(rank, root)
      {
        AboveShrinks(rank, root, id[root]);
        PathStep(id, rank, p, root);
        root := id[root];
      }
    }

    /** The second loop of find: rewire each node of the walk from p to the root. */
    method Compress(p: nat, root: nat)
      requires Valid() && p < |id| && root == Root(id, rank, p)
      modifies this
      ensures Valid() && rank == old(rank) && count == old(count) && |id| == old(|id|)
      ensures forall y :: 0 <= y < |id| ==> Root(id, rank, y) == Root(old(id), old(rank), y)
      ensures forall y :: 0 <= y < |id| ==>
        id[y] == if OnPath(old(id), old(rank), p, y) then root else old(id)[y]
    {
      ghost var id0 := id;
      var q: nat := p;
      while q != root
        invariant Valid() && rank == old(rank) && count == old(count) && |id| == |id0|
        invariant q < |id| && OnPath(id0, rank, p, q) && Root(id0, rank, q) == root
        invariant forall y :: 0 <= y < |id| ==> Root(id, rank, y) == Root(id0, rank, y)
        invariant Compressed(id0, id, rank, p, q, root)
        decreases Above(rank, q)
      {
        var next := id[q];
        CompressStep(id0, id, rank, p, q, root);
        AboveShrinks(rank, q, next);
        id := id[q := root];
        q := next;
      }
      CompressDone(id0, id, rank, p, root);
    }
  }

  /** Linking root i under root j: the roots of i's tree become j, one root fewer. */
  lemma LinkAll(id: seq<nat>, rank: seq<nat>, rank': seq<nat>, i: nat, j: nat)
    requires Ranked(id, rank) && i < |id| && j < |id| && i != j
    requires id[i] == i && id[j] == j
    requires Ranked(id[i := j], rank')
    ensures forall y :: 0 <= y < |id| ==>
      Root(id[i := j], rank', y) == if Root(id, rank, y) in {i, j} then j else Root(id, rank, y)
    ensures |Roots(id[i := j])| == |Roots(id)| - 1
  {
    forall y | 0 <= y < |id| ensures Root(id[i := j], rank', y)
      == if Root(id, rank, y) in {i, j} then j else Root(id, rank, y)
    {
      LinkRoot(id, rank, rank', i, j, y);
    }
    LinkRemovesRoot(id, i, j);
  }

  /** Within Compress: the nodes of the walk from p that come before q point at the root,
      the rest keep their links, and q still has its old link. */
  ghost predicate Compressed(id0: seq<nat>, id: seq<nat>, rank: seq<nat>, p: nat, q: nat,
                             root: nat)
    requires Ranked(id0, rank) && p < |id0| && q < |id0|
  {
    |id| == |id0|
    && forall y :: 0 <= y < |id| ==>
      id[y] == if OnPath(id0, rank, p, y) && !OnPath(id0, rank, q, y) then root else id0[y]
  }

  lemma CompressStep(id0: seq<nat>, id: seq<nat>, rank: seq<nat>, p: nat, q: nat, root: nat)
    requires Ranked(id0, rank) && Ranked(id, rank) && p < |id0| && q < |id0|
    requires q != root && OnPath(id0, rank, p, q) && Root(id0, rank, q) == root
    requires forall y :: 0 <= y < |id| ==> Root(id, rank, y) == Root(id0, rank, y)
    requires Compressed(id0, id, rank, p, q, root)
    ensures id[q] == id0[q] && id0[q] != q
    ensures Root(id, rank, q) == root
    ensures Ranked(id[q := root], rank) && Roots(id[q := root]) == Roots(id)
    ensures OnPath(id0, rank, p, id0[q]) && Root(id0, rank, id0[q]) == root
    ensures forall y :: 0 <= y < |id| ==> Root(id[q := root], rank, y) == Root(id0, rank, y)
    ensures Compressed(id0, id[q := root], rank, p, id0[q], root)
  {
    assert OnPath(id0, rank, q, q);
    assert id[q] == id0[q];
    assert id0[q] != q;
    CompressRoots(id, rank, q);
    PathStep(id0, rank, p, q);
    PathRoot(id0, rank, q, id0[q]);
    assert OnPath(id0, rank, q, id0[q]);
    forall y | 0 <= y < |id|
      ensures OnPath(id0, rank, q, y) <==> y == q || OnPath(id0, rank, id0[q], y)
    {
    }
    if OnPath(id0, rank, id0[q], q) {
      PathRank(id0, rank, id0[q], q);
      assert false;
    }
    assert forall y :: 0 <= y < |id| && OnPath(id0, rank, q, y) ==> OnPath(id0, rank, p, y) by {
      forall y | 0 <= y < |id| && OnPath(id0, rank, q, y) ensures OnPath(id0, rank, p, y) {
        PathTrans(id0, rank, p, q, y);
      }
    }
  }

  lemma CompressDone(id0: seq<nat>, id: seq<nat>, rank: seq<nat>, p: nat, root: nat)
    requires Ranked(id0, rank) && p < |id0| && root < |id0| && id0[root] == root
    requires Compressed(id0, id, rank, p, root, root)
    ensures forall y :: 0 <= y < |id| ==>
      id[y] == if OnPath(id0, rank, p, y) then root else id0[y]
  {
    forall y | 0 <= y < |id| ensures OnPath(id0, rank, root, y) <==> y == root {
    }
  }

  /** Ranks do not decrease along a walk. */
  lemma {:induction false} PathRank(id: seq<nat>, rank: seq<nat>, p: nat, y: nat)
    requires Ranked(id, rank) && p < |id| && OnPath(id, rank, p, y)
    ensures y < |id| && rank[p] <= rank[y]
    decreases Above(rank, p)
  {
    if p != y {
      AboveShrinks(rank, p, id[p]);
      PathRank(id, rank, id[p], y);
    }
  }

  /** Walks compose: what the walk from q passes is passed by the walk from p too. */
  lemma {:induction false} PathTrans(id: seq<nat>, rank: seq<nat>, p: nat, q: nat, y: nat)
    requires Ranked(id, rank) && p < |id| && q < |id|
    requires OnPath(id, rank, p, q) && OnPath(id, rank, q, y)
    ensures OnPath(id, rank, p, y)
    decreases Above(rank, p)
  {
    if p != q {
      AboveShrinks(rank, p, id[p]);
      PathTrans(id, rank, id[p], q, y);
    }
  }
}

/** The classes of the union-find structure described without the forest: a label per
    node, two nodes in one class exactly when they carry one label, and merging two
    classes relabels the first with the label of the second. */
module Classes {
  import opened DisjointSets

  /** The labels after merging the cluster labelled a into the one labelled b. */
  function Relabel(labels: seq<nat>, a: nat, b: nat): (r: seq<nat>)
    ensures |r| == |labels|
  {
    seq(|labels|, y requires 0 <= y < |labels| => if labels[y] == a then b else labels[y])
  }

  /** Two nodes share a root exactly when they share a label. */
  ghost predicate SameClasses(id: seq<nat>, rank: seq<nat>, labels: seq<nat>)
    requires Ranked(id, rank)
  {
    |labels| == |id|
    && forall y, z :: 0 <= y < |id| && 0 <= z < |id| ==>
         (Root(id, rank, y) == Root(id, rank, z) <==> labels[y] == labels[z])
  }

  /** The roots themselves as labels. */
  ghost function RootLabels(id: seq<nat>, rank: seq<nat>): (labels: seq<nat>)
    requires Ranked(id, rank)
    ensures SameClasses(id, rank, labels)
  {
    seq(|id|, y requires 0 <= y < |id| => Root(id, rank, y))
  }

  /** union(p, q) merges the classes of p and q as the relabelling does. */
  lemma UnionRelabels(id0: seq<nat>, rank0: seq<nat>, id: seq<nat>, rank: seq<nat>,
                      labels: seq<nat>, p: nat, q: nat)
    requires Ranked(id0, rank0) && Ranked(id, rank) && |id| == |id0|
    requires p < |id0| && q < |id0| && SameClasses(id0, rank0, labels)
    requires forall y :: 0 <= y < |id| ==>
      Root(id, rank, y)
        == RootAfterUnion(rank0, Root(id0, rank0, p), Root(id0, rank0, q), Root(id0, rank0, y))
    ensures SameClasses(id, rank, Relabel(labels, labels[p], labels[q]))
  {
    var i, j := Root(id0, rank0, p), Root(id0, rank0, q);
    var l := Relabel(labels, labels[p], labels[q]);
    forall y, z | 0 <= y < |id| && 0 <= z < |id|
      ensures Root(id, rank, y) == Root(id, rank, z) <==> l[y] == l[z]
    {
      var ry, rz := Root(id0, rank0, y), Root(id0, rank0, z);
      assert ry == i <==> labels[y] == labels[p];
      assert ry == j <==> labels[y] == labels[q];
      assert rz == i <==> labels[z] == labels[p];
      assert rz == j <==> labels[z] == labels[q];
      assert ry == rz <==> labels[y] == labels[z];
    }
  }
}

/** union(p, q) seen on labels, for the clustering loops that run unions. */
module LabelledUnion {
  import opened DisjointSets
  import opened UnionFind
  import opened Classes

  /** union(p, q) merges the classes of p and q as relabelling the class of p with the
      label of q does, and count drops exactly when the labels differed. */
  method UnionOfClasses(uf: UnionFind, p: nat, q: nat, ghost labels: seq<nat>)
    returns (ghost labels': seq<nat>)
    requires uf.Valid() && p < |uf.id| && q < |uf.id|
    requires SameClasses(uf.id, uf.rank, labels)
    modifies uf
    ensures uf.Valid() && |uf.id| == old(|uf.id|)
    ensures labels' == Relabel(labels, labels[p], labels[q])
    ensures SameClasses(uf.id, uf.rank, labels')
    ensures uf.count == if labels[p] != labels[q] then old(uf.count) - 1 else old(uf.count)
  {
    ghost var id0, rank0 := uf.id, uf.rank;
    uf.Union(p, q);
    UnionRelabels(id0, rank0, uf.id, uf.rank, labels, p, q);
    labels' := Relabel(labels, labels[p], labels[q]);
  }
}
