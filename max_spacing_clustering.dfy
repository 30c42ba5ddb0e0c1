/** The weighted edges of maxSpacingKClustering.py, stored as (weight, node1, node2) so
    that sorting them orders by weight first, and their lexicographic sort. */
module WeightedEdges {

  datatype Edge = Edge(w: int, v1: nat, v2: nat)

  /** The tuple order of (weight, node1, node2). */
  predicate LexLeq(a: Edge, b: Edge)
  {
    a.w < b.w || (a.w == b.w && (a.v1 < b.v1 || (a.v1 == b.v1 && a.v2 <= b.v2)))
  }

  ghost predicate SortedEdges(s: seq<Edge>)
  {
    forall i, j :: 0 <= i < j < |s| ==> LexLeq(s[i], s[j])
  }

  /** s with e put in front of the first edge not below it. */
  function InsertEdge(s: seq<Edge>, e: Edge): (t: seq<Edge>)
    ensures |t| == |s| + 1
  {
    if s == [] then [e]
    else if LexLeq(e, s[0]) then [e] + s
    else
      assert s == [s[0]] + s[1..];
      [s[0]] + InsertEdge(s[1..], e)
  }

  lemma {:induction false} InsertEdgeMultiset(s: seq<Edge>, e: Edge)
    ensures multiset(InsertEdge(s, e)) == multiset(s) + multiset{e}
  {
    if s != [] && !LexLeq(e, s[0]) {
      InsertEdgeMultiset(s[1..], e);
      assert s == [s[0]] + s[1..];
      assert multiset(InsertEdge(s, e)) == multiset{s[0]} + multiset(InsertEdge(s[1..], e));
    }
  }

  lemma {:induction false} InsertEdgeSorted(s: seq<Edge>, e: Edge)
    requires SortedEdges(s)
    ensures SortedEdges(InsertEdge(s, e))
  {
    if s != [] && !LexLeq(e, s[0]) {
      InsertEdgeSorted(s[1..], e);
      var t := InsertEdge(s[1..], e);
      InsertEdgeMultiset(s[1..], e);
      forall k | 0 <= k < |t| ensures LexLeq(s[0], t[k]) {
        assert t[k] in multiset(s[1..]) + multiset{e};
        if t[k] in multiset(s[1..]) {
          var i :| 0 <= i < |s[1..]| && s[1..][i] == t[k];
          assert s[i + 1] == t[k];
        }
      }
    }
  }

  /** edges.sort(): the edges in lexicographic order. */
  function SortEdges(s: seq<Edge>): (t: seq<Edge>)
    ensures SortedEdges(t) && multiset(t) == multiset(s) && |t| == |s|
  {
    if s == [] then []
    else
      assert s == s[..|s| - 1] + [s[|s| - 1]];
      InsertEdgeSorted(SortEdges(s[..|s| - 1]), s[|s| - 1]);
      InsertEdgeMultiset(SortEdges(s[..|s| - 1]), s[|s| - 1]);
      InsertEdge(SortEdges(s[..|s| - 1]), s[|s| - 1])
  }

  /** Every endpoint is a node below n. */
  ghost predicate EdgesWithin(edges: seq<Edge>, n: nat)
  {
    forall e :: e in edges ==> e.v1 < n && e.v2 < n
  }
}

/** The clusters that solve builds, described by labels: the edges in order, each
    merging the clusters of its ends, until k clusters are left. */
module ClusterLabels {
  import opened DisjointSets
  import opened Classes
  import opened WeightedEdges
  import opened ExtInt

  /** Where the loop of solve stops: the labels and the count once the merging has
      stopped, and how many edges it took. */
  datatype Clustering = Clustering(labels: seq<nat>, count: int, merged: nat)

  /** The loop of solve on labels: take the edges in order and merge the clusters of
      their ends, one cluster fewer whenever the ends were apart, until k clusters are
      left or the edges run out. */
  ghost function Clusters(labels: seq<nat>, count: int, edges: seq<Edge>, k: int): (c: Clustering)
    requires EdgesWithin(edges, |labels|)
    ensures |c.labels| == |labels| && c.merged <= |edges|
    decreases |edges|
  {
    if edges == [] || count == k then Clustering(labels, count, 0)
    else
      var e := edges[0];
      var apart := labels[e.v1] != labels[e.v2];
      assert EdgesWithin(edges[1..], |labels|) by {
        forall f | f in edges[1..] ensures f in edges { }
      }
      var c := Clusters(Relabel(labels, labels[e.v1], labels[e.v2]),
                        if apart then count - 1 else count, edges[1..], k);
      Clustering(c.labels, c.count, c.merged + 1)
  }

  /** One pass of the loop of solve, on the edges from i on. */
  lemma ClustersStep(labels: seq<nat>, count: int, edges: seq<Edge>, i: nat, k: int)
    requires i < |edges| && EdgesWithin(edges[i..], |labels|) && count != k
    ensures edges[i].v1 < |labels| && edges[i].v2 < |labels| && EdgesWithin(edges[i + 1..], |labels|)
    ensures var e := edges[i];
      var c := Clusters(Relabel(labels, labels[e.v1], labels[e.v2]),
                        if labels[e.v1] != labels[e.v2] then count - 1 else count, edges[i + 1..], k);
      Clusters(labels, count, edges[i..], k) == Clustering(c.labels, c.count, c.merged + 1)
  {
    assert edges[i..][0] == edges[i] && edges[i..][1..] == edges[i + 1..];
    assert edges[i] in edges[i..];
  }

  /** The loop of solve stops when k clusters are left or the edges run out. */
  lemma ClustersDone(labels: seq<nat>, count: int, edges: seq<Edge>, i: nat, k: int)
    requires i <= |edges| && EdgesWithin(edges[i..], |labels|) && (i == |edges| || count == k)
    ensures Clusters(labels, count, edges[i..], k) == Clustering(labels, count, 0)
  {
    if i == |edges| {
      assert edges[i..] == [];
    }
  }

  /** Nodes in one cluster stay in one cluster. */
  lemma {:induction false} ClustersKeepTogether(labels: seq<nat>, count: int, edges: seq<Edge>,
                                                k: int, x: nat, y: nat)
    requires EdgesWithin(edges, |labels|) && x < |labels| && y < |labels|
    requires labels[x] == labels[y]
    ensures Clusters(labels, count, edges, k).labels[x] == Clusters(labels, count, edges, k).labels[y]
    decreases |edges|
  {
    if edges != [] && count != k {
      var e := edges[0];
      assert EdgesWithin(edges[1..], |labels|) by {
        forall f | f in edges[1..] ensures f in edges { }
      }
      ClustersKeepTogether(Relabel(labels, labels[e.v1], labels[e.v2]),
        if labels[e.v1] != labels[e.v2] then count - 1 else count, edges[1..], k, x, y);
    }
  }

  /** Every merged edge ends up inside one cluster. */
  lemma {:induction false} MergedInside(labels: seq<nat>, count: int, edges: seq<Edge>, k: int, a: nat)
    requires EdgesWithin(edges, |labels|)
    requires a < Clusters(labels, count, edges, k).merged
    ensures var c := Clusters(labels, count, edges, k);
      c.labels[edges[a].v1] == c.labels[edges[a].v2]
    decreases |edges|
  {
    var e := edges[0];
    var l := Relabel(labels, labels[e.v1], labels[e.v2]);
    var count' := if labels[e.v1] != labels[e.v2] then count - 1 else count;
    assert EdgesWithin(edges[1..], |labels|) by {
      forall f | f in edges[1..] ensures f in edges { }
    }
    if a == 0 {
      ClustersKeepTogether(l, count', edges[1..], k, e.v1, e.v2);
    } else {
      MergedInside(l, count', edges[1..], k, a - 1);
    }
  }

  /** The merging stops with k clusters, or only once every edge has been taken. */
  lemma {:induction false} ClustersStop(labels: seq<nat>, count: int, edges: seq<Edge>, k: int)
    requires EdgesWithin(edges, |labels|)
    ensures var c := Clusters(labels, count, edges, k);
      c.count == k || c.merged == |edges|
    decreases |edges|
  {
    if edges != [] && count != k {
      var e := edges[0];
      assert EdgesWithin(edges[1..], |labels|) by {
        forall f | f in edges[1..] ensures f in edges { }
      }
      ClustersStop(Relabel(labels, labels[e.v1], labels[e.v2]),
        if labels[e.v1] != labels[e.v2] then count - 1 else count, edges[1..], k);
    }
  }

  /** The edge joins two different clusters. */
  predicate Crossing(labels: seq<nat>, e: Edge)
  {
    e.v1 < |labels| && e.v2 < |labels| && labels[e.v1] != labels[e.v2]
  }

  /** The least weight of an edge joining two different clusters, inf if there is none. */
  function MinCrossing(edges: seq<Edge>, labels: seq<nat>): (m: ExtInt)
  {
    if edges == [] then Inf
    else
      var last := edges[|edges| - 1];
      Min(MinCrossing(edges[..|edges| - 1], labels),
          if Crossing(labels, last) then Finite(last.w) else Inf)
  }

  /** MinCrossing is inf exactly when no edge crosses, and otherwise the weight of a
      crossing edge that no crossing edge undercuts. */
  lemma {:induction false} MinCrossingIsLeast(edges: seq<Edge>, labels: seq<nat>)
    ensures var m := MinCrossing(edges, labels);
      (m.Inf? <==> forall b :: 0 <= b < |edges| ==> !Crossing(labels, edges[b]))
      && (m.Finite? ==> exists b :: 0 <= b < |edges| && Crossing(labels, edges[b]) && edges[b].w == m.n)
      && (forall b :: 0 <= b < |edges| && Crossing(labels, edges[b]) ==> Le(m, Finite(edges[b].w)))
  {
    if edges != [] {
      var front := edges[..|edges| - 1];
      MinCrossingIsLeast(front, labels);
      assert forall b :: 0 <= b < |front| ==> front[b] == edges[b];
    }
  }

  /** The spacing of max-spacing clustering: with the edges in order of weight, a
      crossing edge weighs at least as much as every merged edge, since every merged
      edge is inside a cluster. */
  lemma SpacingAboveMerged(labels: seq<nat>, count: int, edges: seq<Edge>, k: int, a: nat, b: nat)
    requires EdgesWithin(edges, |labels|) && SortedEdges(edges)
    requires a < Clusters(labels, count, edges, k).merged && b < |edges|
    requires Crossing(Clusters(labels, count, edges, k).labels, edges[b])
    ensures edges[a].w <= edges[b].w
  {
    MergedInside(labels, count, edges, k, a);
    if b <= a {
      assert b < a;
      assert LexLeq(edges[b], edges[a]);
      MergedInside(labels, count, edges, k, b);
    }
  }

  /** The answer of solve bounds the merged edges: no merged edge weighs more than the
      least weight between two of the final clusters. */
  lemma SpacingOfResult(labels: seq<nat>, count: int, edges: seq<Edge>, k: int)
    requires EdgesWithin(edges, |labels|) && SortedEdges(edges)
    ensures var c := Clusters(labels, count, edges, k);
      forall a :: 0 <= a < c.merged ==> Le(Finite(edges[a].w), MinCrossing(edges, c.labels))
  {
    var c := Clusters(labels, count, edges, k);
    var m := MinCrossing(edges, c.labels);
    MinCrossingIsLeast(edges, c.labels);
    forall a | 0 <= a < c.merged ensures Le(Finite(edges[a].w), m) {
      if m.Finite? {
        var b :| 0 <= b < |edges| && Crossing(c.labels, edges[b]) && edges[b].w == m.n;
        SpacingAboveMerged(labels, count, edges, k, a, b);
      }
    }
  }

  /** The nodes 1..n-1 of UnionFind(n - 1): node 0 is the spare node no edge touches. */
  ghost function Nodes(n: nat): (S: set<nat>)
    ensures forall x :: x in S <==> 1 <= x < n
    ensures |S| == if n == 0 then 0 else n - 1
  {
    if n <= 1 then {} else Nodes(n - 1) + {n - 1}
  }

  /** The labels that the nodes of S carry: the clusters of S. */
  ghost function LabelsOn(S: set<nat>, labels: seq<nat>): set<nat>
  {
    set x | x in S && x < |labels| :: labels[x]
  }

  /** Every edge joins two of the nodes 1..n-1, as in the input file. */
  ghost predicate EdgesBetween(edges: seq<Edge>, n: nat)
  {
    EdgesWithin(edges, n) && forall e :: e in edges ==> 1 <= e.v1 && 1 <= e.v2
  }

  /** Some two nodes share a label in labels but not in other. */
  ghost predicate Splits(labels: seq<nat>, other: seq<nat>)
  {
    exists x, y :: 0 <= x < |labels| && 0 <= y < |labels| && x < |other| && y < |other|
      && labels[x] == labels[y] && other[x] != other[y]
  }

  /** Merging the cluster of u into that of v removes exactly the label of u from the
      clusters of the nodes, unless the two were one cluster already. */
  lemma RelabelClasses(labels: seq<nat>, u: nat, v: nat)
    requires 1 <= u < |labels| && 1 <= v < |labels|
    ensures var a, b := labels[u], labels[v];
      |LabelsOn(Nodes(|labels|), Relabel(labels, a, b))|
        == if a == b then |LabelsOn(Nodes(|labels|), labels)| else |LabelsOn(Nodes(|labels|), labels)| - 1
  {
    var a, b := labels[u], labels[v];
    var l := Relabel(labels, a, b);
    var S := Nodes(|labels|);
    if a == b {
      assert l == labels;
    } else {
      assert u in S && v in S;
      forall s | s in LabelsOn(S, l) ensures s in LabelsOn(S, labels) - {a} {
        var x :| x in S && x < |l| && l[x] == s;
        if labels[x] == a {
          assert s == labels[v];
        } else {
          assert s == labels[x];
        }
      }
      forall s | s in LabelsOn(S, labels) - {a} ensures s in LabelsOn(S, l) {
        var x :| x in S && x < |labels| && labels[x] == s;
        assert l[x] == s;
      }
      assert LabelsOn(S, l) == LabelsOn(S, labels) - {a};
      assert a in LabelsOn(S, labels);
    }
  }

  /** The count the loop keeps is the number of clusters of the nodes. */
  lemma {:induction false} ClustersCount(labels: seq<nat>, count: int, edges: seq<Edge>, k: int)
    requires EdgesBetween(edges, |labels|) && count == |LabelsOn(Nodes(|labels|), labels)|
    ensures var c := Clusters(labels, count, edges, k);
      c.count == |LabelsOn(Nodes(|labels|), c.labels)|
    decreases |edges|
  {
    if edges != [] && count != k {
      var e := edges[0];
      assert e in edges;
      var l := Relabel(labels, labels[e.v1], labels[e.v2]);
      assert EdgesBetween(edges[1..], |labels|) by {
        forall f | f in edges[1..] ensures f in edges { }
      }
      RelabelClasses(labels, e.v1, e.v2);
      ClustersCount(l, if labels[e.v1] != labels[e.v2] then count - 1 else count, edges[1..], k);
    }
  }

  /** A labelling that splits a final cluster was split by the labels the merging
      started from, or is crossed by an edge the loop took. */
  lemma {:induction false} SplitCrossed(labels: seq<nat>, count: int, edges: seq<Edge>, k: int,
                                        other: seq<nat>)
    requires EdgesWithin(edges, |labels|) && |other| == |labels|
    requires Splits(Clusters(labels, count, edges, k).labels, other)
    ensures Splits(labels, other)
      || exists a :: 0 <= a < Clusters(labels, count, edges, k).merged && Crossing(other, edges[a])
    decreases |edges|
  {
    var c := Clusters(labels, count, edges, k);
    if edges != [] && count != k && !Crossing(other, edges[0]) {
      var e := edges[0];
      assert e in edges;
      var A, B := labels[e.v1], labels[e.v2];
      var l := Relabel(labels, A, B);
      var count' := if A != B then count - 1 else count;
      assert EdgesWithin(edges[1..], |labels|) by {
        forall f | f in edges[1..] ensures f in edges { }
      }
      SplitCrossed(l, count', edges[1..], k, other);
      var c' := Clusters(l, count', edges[1..], k);
      if a' :| 0 <= a' < c'.merged && Crossing(other, edges[1..][a']) {
        assert edges[a' + 1] == edges[1..][a'];
      } else {
        var x, y :| 0 <= x < |l| && 0 <= y < |l| && l[x] == l[y] && other[x] != other[y];
        if labels[x] != labels[y] {
          assert other[e.v1] == other[e.v2];
          if labels[x] == A {
            assert labels[y] == B;
            assert labels[x] == labels[e.v1] && labels[y] == labels[e.v2];
            assert other[x] != other[e.v1] || other[y] != other[e.v2];
          } else {
            assert labels[y] == A && labels[x] == B;
            assert labels[y] == labels[e.v1] && labels[x] == labels[e.v2];
            assert other[y] != other[e.v1] || other[x] != other[e.v2];
          }
        }
      }
    }
  }

  /** Clusters of S that refine a labelling have at least as many labels as it has;
      strictly more when the labelling joins two of them. */
  lemma {:induction false} FewerClasses(S: set<nat>, fine: seq<nat>, coarse: seq<nat>)
    requires forall x :: x in S ==> x < |fine| && x < |coarse|
    requires forall x, y :: x in S && y in S && fine[x] == fine[y] ==> coarse[x] == coarse[y]
    ensures |LabelsOn(S, coarse)| <= |LabelsOn(S, fine)|
    decreases |S|
  {
    if S != {} {
      var x :| x in S;
      var S' := S - {x};
      FewerClasses(S', fine, coarse);
      assert LabelsOn(S, fine) == LabelsOn(S', fine) + {fine[x]};
      assert LabelsOn(S, coarse) == LabelsOn(S', coarse) + {coarse[x]};
      if fine[x] in LabelsOn(S', fine) {
        var y :| y in S' && y < |fine| && fine[y] == fine[x];
        assert coarse[x] in LabelsOn(S', coarse);
      }
    }
  }

  lemma {:induction false} FewerClassesStrict(S: set<nat>, fine: seq<nat>, coarse: seq<nat>, p: nat, q: nat)
    requires forall x :: x in S ==> x < |fine| && x < |coarse|
    requires forall x, y :: x in S && y in S && fine[x] == fine[y] ==> coarse[x] == coarse[y]
    requires p in S && q in S && coarse[p] == coarse[q] && fine[p] != fine[q]
    ensures |LabelsOn(S, coarse)| < |LabelsOn(S, fine)|
    decreases |S|
  {
    var S' := S - {p};
    assert q in S';
    assert LabelsOn(S, fine) == LabelsOn(S', fine) + {fine[p]};
    assert LabelsOn(S, coarse) == LabelsOn(S', coarse) + {coarse[p]};
    assert coarse[p] in LabelsOn(S', coarse);
    if fine[p] in LabelsOn(S', fine) {
      var r :| r in S' && r < |fine| && fine[r] == fine[p];
      FewerClassesStrict(S', fine, coarse, r, q);
      assert LabelsOn(S, fine) == LabelsOn(S', fine);
      assert LabelsOn(S, coarse) == LabelsOn(S', coarse);
    } else {
      FewerClasses(S', fine, coarse);
    }
  }

  /** Two labellings under which the same edges cross give the same least crossing weight. */
  lemma {:induction false} MinCrossingSame(edges: seq<Edge>, l1: seq<nat>, l2: seq<nat>)
    requires forall b :: 0 <= b < |edges| ==> Crossing(l1, edges[b]) == Crossing(l2, edges[b])
    ensures MinCrossing(edges, l1) == MinCrossing(edges, l2)
  {
    if edges != [] {
      var front := edges[..|edges| - 1];
      assert forall b :: 0 <= b < |front| ==> front[b] == edges[b];
      MinCrossingSame(front, l1, l2);
    }
  }

  /** The clustering is a max-spacing k-clustering. Started from every node on its own
      and stopped at k clusters, the loop leaves k clusters of the nodes, and no
      labelling of the nodes into k clusters or more has a larger spacing: a lighter or
      equal edge crosses it. */
  lemma MaxSpacing(labels: seq<nat>, count: int, edges: seq<Edge>, k: int, other: seq<nat>)
    requires EdgesBetween(edges, |labels|) && SortedEdges(edges)
    requires forall x, y :: 0 <= x < |labels| && 0 <= y < |labels| && labels[x] == labels[y] ==> x == y
    requires count == |LabelsOn(Nodes(|labels|), labels)|
    requires Clusters(labels, count, edges, k).count == k
    requires |other| == |labels| && |LabelsOn(Nodes(|labels|), other)| >= k
    ensures var c := Clusters(labels, count, edges, k);
      |LabelsOn(Nodes(|labels|), c.labels)| == k
      && Le(MinCrossing(edges, other), MinCrossing(edges, c.labels))
  {
    var c := Clusters(labels, count, edges, k);
    var S := Nodes(|labels|);
    ClustersCount(labels, count, edges, k);
    if p, q :| p in S && q in S && c.labels[p] == c.labels[q] && other[p] != other[q] {
      assert Splits(c.labels, other);
      SplitCrossed(labels, count, edges, k, other);
      var a :| 0 <= a < c.merged && Crossing(other, edges[a]);
      MinCrossingIsLeast(edges, other);
      SpacingOfResult(labels, count, edges, k);
      assert Le(Finite(edges[a].w), MinCrossing(edges, c.labels));
    } else {
      if p, q :| p in S && q in S && other[p] == other[q] && c.labels[p] != c.labels[q] {
        FewerClassesStrict(S, c.labels, other, p, q);
        assert false;
      }
      forall b | 0 <= b < |edges| ensures Crossing(other, edges[b]) == Crossing(c.labels, edges[b]) {
        assert edges[b] in edges;
        assert edges[b].v1 in S && edges[b].v2 in S;
      }
      MinCrossingSame(edges, other, c.labels);
    }
  }
}

/** maxSpacingKClustering.py: the edges sorted once, then solve(k) merges along them
    until k clusters remain and returns the least weight between two clusters. */
module MaxSpacingClustering {
  import opened DisjointSets
  import opened UnionFind
  import opened Classes
  import opened WeightedEdges
  import opened ClusterLabels
  import opened LabelledUnion
  import opened ExtInt

  /** Every node is its own parent, as UnionFind(N) leaves _id. */
  ghost predicate Identity(id: seq<nat>)
  {
    forall x :: 0 <= x < |id| ==> id[x] == x
  }

  /** UnionFind(N) as the constructor leaves it: every node is its own root. */
  lemma FreshRoots(id: seq<nat>, rank: seq<nat>)
    requires Ranked(id, rank) && Identity(id)
    ensures RootLabels(id, rank) == id
  {
    var labels := RootLabels(id, rank);
    forall y | 0 <= y < |id| ensures labels[y] == id[y] {
      assert id[y] == y;
    }
  }

  /** With every node its own cluster, the clusters of the nodes are the nodes. */
  lemma FreshClusters(id: seq<nat>)
    requires Identity(id)
    ensures LabelsOn(Nodes(|id|), id) == Nodes(|id|)
  {
    forall y | y in Nodes(|id|) ensures y in LabelsOn(Nodes(|id|), id) {
      assert id[y] == y;
    }
  }

  /** solve(k) on the structure the constructor builds: when the loop stops at k
      clusters, they are a max-spacing k-clustering of the nodes 1..N. */
  lemma MaxSpacingFromStart(id: seq<nat>, rank: seq<nat>, count: int, edges: seq<Edge>, k: int)
    requires Ranked(id, rank) && Identity(id) && |id| >= 1 && count == |id| - 1
    requires EdgesBetween(edges, |id|) && SortedEdges(edges)
    requires Clusters(RootLabels(id, rank), count, edges, k).count == k
    ensures var c := Clusters(RootLabels(id, rank), count, edges, k);
      |LabelsOn(Nodes(|id|), c.labels)| == k
      && forall other :: |other| == |id| && |LabelsOn(Nodes(|id|), other)| >= k
           ==> Le(MinCrossing(edges, other), MinCrossing(edges, c.labels))
  {
    var labels := RootLabels(id, rank);
    FreshRoots(id, rank);
    FreshClusters(id);
    assert forall x, y :: 0 <= x < |labels| && 0 <= y < |labels| && labels[x] == labels[y] ==> x == y by {
      forall x, y | 0 <= x < |labels| && 0 <= y < |labels| && labels[x] == labels[y] ensures x == y {
        assert id[x] == x && id[y] == y;
      }
    }
    ClustersCount(labels, count, edges, k);
    forall other | |other| == |id| && |LabelsOn(Nodes(|id|), other)| >= k
      ensures Le(MinCrossing(edges, other), MinCrossing(edges, Clusters(labels, count, edges, k).labels))
    {
      MaxSpacing(labels, count, edges, k, other);
    }
  }

  class MaxSpaceKClustering {
    const edges: seq<Edge>
    const unionFind: UnionFind

    /** The edges as read, sorted, over the union-find structure of the nodes 1..N. */
    constructor (clusterCount: nat, read: seq<Edge>)
      ensures edges == SortEdges(read) && fresh(unionFind)
      ensures unionFind.Valid() && unionFind.count == clusterCount
      ensures unionFind.id == seq(clusterCount + 1, x => x)
    {
      edges := SortEdges(read);
      unionFind := new UnionFind(clusterCount);
    }

    /** solve(k): the first loop merges the clusters of the edge ends until count == k,
        the second takes the least weight of an edge joining two clusters. The clusters
        are those of Clusters from the classes before the call; called on the structure
        the constructor builds, with the loop stopping at k clusters, the answer is the
        largest spacing of any clustering of the nodes 1..N into k clusters or more. */
    method Solve(k: int) returns (minDistance: ExtInt)
      requires unionFind.Valid() && EdgesWithin(edges, |unionFind.id|)
      modifies unionFind
      ensures unionFind.Valid()
      ensures var c := Clusters(RootLabels(old(unionFind.id), old(unionFind.rank)),
                                old(unionFind.count), edges, k);
        minDistance == MinCrossing(edges, c.labels)
        && unionFind.count == c.count
        && SameClasses(unionFind.id, unionFind.rank, c.labels)
      ensures var n := |old(unionFind.id)|;
        var c := Clusters(RootLabels(old(unionFind.id), old(unionFind.rank)),
                          old(unionFind.count), edges, k);
        Identity(old(unionFind.id)) && old(unionFind.count) == n - 1
        && EdgesBetween(edges, n) && SortedEdges(edges) && c.count == k
        ==> |LabelsOn(Nodes(n), c.labels)| == k
            && forall other :: |other| == n && |LabelsOn(Nodes(n), other)| >= k
                 ==> Le(MinCrossing(edges, other), minDistance)
    {
      ghost var all := Clusters(RootLabels(unionFind.id, unionFind.rank), unionFind.count, edges, k);
      ghost var labels := MergeClusters(k);
      minDistance := CrossingWeight(labels);
      if Identity(old(unionFind.id))
        && old(unionFind.count) == |old(unionFind.id)| - 1
        && EdgesBetween(edges, |old(unionFind.id)|) && SortedEdges(edges) && all.count == k
      {
        MaxSpacingFromStart(old(unionFind.id), old(unionFind.rank), old(unionFind.count), edges, k);
      }
    }

    /** The first loop of solve: union the ends of the edges in order until count() is
        k. The classes afterwards are those of Clusters from the classes before. */
    method MergeClusters(k: int) returns (ghost labels: seq<nat>)
      requires unionFind.Valid() && EdgesWithin(edges, |unionFind.id|)
      modifies unionFind
      ensures unionFind.Valid() && |unionFind.id| == |old(unionFind.id)|
      ensures var c := Clusters(RootLabels(old(unionFind.id), old(unionFind.rank)),
                                old(unionFind.count), edges, k);
        labels == c.labels && unionFind.count == c.count
        && SameClasses(unionFind.id, unionFind.rank, labels)
    {
      ghost var all := Clusters(RootLabels(unionFind.id, unionFind.rank), unionFind.count, edges, k);
      labels := RootLabels(unionFind.id, unionFind.rank);
      var i := 0;
      while i < |edges|
        invariant 0 <= i <= |edges| && unionFind.Valid()
        invariant |unionFind.id| == |labels| == |old(unionFind.id)|
        invariant SameClasses(unionFind.id, unionFind.rank, labels)
        invariant EdgesWithin(edges[i..], |labels|)
        invariant var c := Clusters(labels, unionFind.count, edges[i..], k);
          c.labels == all.labels && c.count == all.count && i + c.merged == all.merged
      {
        if unionFind.Count() == k {
          break;
        }
        var e := edges[i];
        ClustersStep(labels, unionFind.count, edges, i, k);
        labels := UnionOfClasses(unionFind, e.v1, e.v2, labels);
        i := i + 1;
      }
      ClustersDone(labels, unionFind.count, edges, i, k);
    }

    /** The second loop of solve: the least weight over the edges whose ends are not
        connected. Connected compresses paths but keeps every class. */
    method CrossingWeight(ghost labels: seq<nat>) returns (minDistance: ExtInt)
      requires unionFind.Valid() && EdgesWithin(edges, |unionFind.id|)
      requires SameClasses(unionFind.id, unionFind.rank, labels)
      modifies unionFind
      ensures unionFind.Valid() && unionFind.count == old(unionFind.count)
      ensures SameClasses(unionFind.id, unionFind.rank, labels)
      ensures minDistance == MinCrossing(edges, labels)
    {
      minDistance := Inf;
      var i := 0;
      while i < |edges|
        invariant 0 <= i <= |edges| && unionFind.Valid()
        invariant |unionFind.id| == |labels| && unionFind.count == old(unionFind.count)
        invariant SameClasses(unionFind.id, unionFind.rank, labels)
        invariant minDistance == MinCrossing(edges[..i], labels)
      {
        var e := edges[i];
        assert e in edges;
        ghost var id0 := unionFind.id;
        var connected := unionFind.Connected(e.v1, e.v2);
        assert connected <==> labels[e.v1] == labels[e.v2];
        if !connected {
          minDistance := Min(minDistance, Finite(e.w));
        }
        assert edges[..i + 1][..i] == edges[..i];
        i := i + 1;
      }
      assert edges[..i] == edges;
    }
  }
}
