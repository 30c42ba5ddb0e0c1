/** Johnson's reweighting: with a potential h on the vertices, an edge u -> v of length w
    gets length w + h[u] - h[v]. The length of a walk then changes by h[start] - h[end]
    only, so shortest walks stay shortest and their lengths can be recovered. */
module Reweighting {
  import opened ExtInt
  import opened Walks
  import opened Relaxation
  import opened VertexGraph

  /** E2 is E with every edge reweighted by h, in the same order. */
  ghost predicate ReweightOf(E: seq<Edge>, h: seq<int>, E2: seq<Edge>)
  {
    VerticesIn(E, 0, |h|) && |E2| == |E| && forall i :: 0 <= i < |E| ==> E2[i] == ReweightEdge(E[i], h)
  }

  /** Every edge of p joins vertices that index h. */
  ghost predicate IdsIn(p: seq<Edge>, h: seq<int>)
  {
    forall i :: 0 <= i < |p| ==> 0 <= p[i].s < |h| && 0 <= p[i].d < |h|
  }

  /** An edge of the reweighted graph, back at its original length. */
  function RestoreEdge(e: Edge, h: seq<int>): (r: Edge)
    requires 0 <= e.s < |h| && 0 <= e.d < |h|
    ensures r.s == e.s && r.d == e.d && ReweightEdge(r, h) == e
  {
    Edge(e.s, e.d, e.w - h[e.s] + h[e.d])
  }

  function ReweightWalk(p: seq<Edge>, h: seq<int>): (r: seq<Edge>)
    requires IdsIn(p, h)
    ensures |r| == |p| && forall i :: 0 <= i < |p| ==> r[i] == ReweightEdge(p[i], h)
  {
    seq(|p|, i requires 0 <= i < |p| => ReweightEdge(p[i], h))
  }

  function RestoreWalk(p: seq<Edge>, h: seq<int>): (r: seq<Edge>)
    requires IdsIn(p, h)
    ensures |r| == |p| && forall i :: 0 <= i < |p| ==> r[i] == RestoreEdge(p[i], h)
  {
    seq(|p|, i requires 0 <= i < |p| => RestoreEdge(p[i], h))
  }

  /** Each edge of a walk starts where the previous one ended. */
  ghost predicate Chained(p: seq<Edge>, u: int)
  {
    forall i :: 0 <= i < |p| ==> p[i].s == At(u, p, i)
  }

  /** The reweighted length of a chained walk telescopes: it is the original length plus
      h at its start minus h at its end. */
  lemma {:induction false} WeightTelescopes(p: seq<Edge>, h: seq<int>, u: int)
    requires IdsIn(p, h) && Chained(p, u) && 0 <= u < |h|
    ensures Weight(ReweightWalk(p, h)) == Weight(p) + h[u] - h[At(u, p, |p|)]
    decreases |p|
  {
    if p != [] {
      var n := |p|;
      var q := p[..n - 1];
      assert ReweightWalk(p, h)[..n - 1] == ReweightWalk(q, h);
      forall i | 0 <= i < |q| ensures q[i].s == At(u, q, i) {
        assert q[i] == p[i];
        if i > 0 {
          assert q[i - 1] == p[i - 1];
        }
      }
      WeightTelescopes(q, h, u);
      assert p[n - 1].s == At(u, p, n - 1);
      if n > 1 {
        assert At(u, q, n - 1) == q[n - 2].d == p[n - 2].d;
      }
    }
  }

  /** Two edge lists through the same vertices: the same ends, edge by edge. */
  ghost predicate SameEnds(p: seq<Edge>, q: seq<Edge>)
  {
    |p| == |q| && forall i :: 0 <= i < |p| ==> p[i].s == q[i].s && p[i].d == q[i].d
  }

  lemma SameEndsWalk(E: seq<Edge>, p: seq<Edge>, q: seq<Edge>, u: int, v: int)
    requires SameEnds(p, q) && IsWalk(E, p, u, v)
    ensures forall i :: 0 <= i <= |q| ==> At(u, q, i) == At(u, p, i)
    ensures Chained(q, u) && At(u, q, |q|) == v && Visits(u, q) == Visits(u, p)
  {
    forall i | 0 <= i <= |q| ensures At(u, q, i) == At(u, p, i) {
    }
  }

  /** Every edge of a walk of the original graph, reweighted, is an edge of the
      reweighted graph. */
  lemma EdgesReweighted(E: seq<Edge>, h: seq<int>, E2: seq<Edge>, p: seq<Edge>)
    requires ReweightOf(E, h, E2) && forall i :: 0 <= i < |p| ==> p[i] in E
    ensures IdsIn(p, h) && forall i :: 0 <= i < |p| ==> ReweightWalk(p, h)[i] in E2
  {
    forall i | 0 <= i < |p| ensures 0 <= p[i].s < |h| && 0 <= p[i].d < |h| && ReweightEdge(p[i], h) in E2 {
      var j :| 0 <= j < |E| && E[j] == p[i];
      assert E2[j] == ReweightEdge(p[i], h);
    }
  }

  /** Every edge of a walk of the reweighted graph, restored, is an edge of the original
      graph. */
  lemma EdgesRestored(E: seq<Edge>, h: seq<int>, E2: seq<Edge>, q: seq<Edge>)
    requires ReweightOf(E, h, E2) && forall i :: 0 <= i < |q| ==> q[i] in E2
    ensures IdsIn(q, h) && forall i :: 0 <= i < |q| ==> RestoreWalk(q, h)[i] in E
  {
    forall i | 0 <= i < |q| ensures 0 <= q[i].s < |h| && 0 <= q[i].d < |h| && RestoreEdge(q[i], h) in E {
      var j :| 0 <= j < |E2| && E2[j] == q[i];
      assert E2[j] == ReweightEdge(E[j], h);
    }
  }

  /** A walk of the original graph is a walk of the reweighted one, longer by
      h[u] - h[v]. */
  lemma WalkReweighted(E: seq<Edge>, h: seq<int>, E2: seq<Edge>, p: seq<Edge>, u: int, v: int)
    requires ReweightOf(E, h, E2) && IsWalk(E, p, u, v) && 0 <= u < |h|
    ensures IdsIn(p, h) && IsWalk(E2, ReweightWalk(p, h), u, v)
    ensures Weight(ReweightWalk(p, h)) == Weight(p) + h[u] - h[v]
  {
    EdgesReweighted(E, h, E2, p);
    SameEndsWalk(E, p, ReweightWalk(p, h), u, v);
    WeightTelescopes(p, h, u);
  }

  /** A walk of the reweighted graph is, at the original lengths, a walk of the original
      graph through the same vertices, shorter by h[u] - h[v]. */
  lemma WalkRestored(E: seq<Edge>, h: seq<int>, E2: seq<Edge>, q: seq<Edge>, u: int, v: int)
    requires ReweightOf(E, h, E2) && IsWalk(E2, q, u, v) && 0 <= u < |h|
    ensures IdsIn(q, h) && IsWalk(E, RestoreWalk(q, h), u, v)
    ensures Weight(RestoreWalk(q, h)) == Weight(q) - h[u] + h[v]
    ensures Visits(u, RestoreWalk(q, h)) == Visits(u, q)
  {
    EdgesRestored(E, h, E2, q);
    var p := RestoreWalk(q, h);
    SameEndsWalk(E2, q, p, u, v);
    assert ReweightWalk(p, h) == q;
    WeightTelescopes(p, h, u);
  }

  /** A shortest distance in the reweighted graph, plus h[v] - h[src], is the shortest
      distance in the original graph. */
  lemma ShortestRestored(E: seq<Edge>, h: seq<int>, E2: seq<Edge>, src: int, v: int, dv: ExtInt)
    requires ReweightOf(E, h, E2) && 0 <= src < |h| && 0 <= v < |h|
    requires Shortest(E2, src, v, dv)
    ensures Shortest(E, src, v, Add(dv, Finite(h[v] - h[src])))
  {
    var d := Add(dv, Finite(h[v] - h[src]));
    if dv.Finite? {
      var q :| IsWalk(E2, q, src, v) && Weight(q) == dv.n;
      WalkRestored(E, h, E2, q, src, v);
      assert IsWalk(E, RestoreWalk(q, h), src, v) && Weight(RestoreWalk(q, h)) == d.n;
    }
    forall p | IsWalk(E, p, src, v) ensures Le(d, Finite(Weight(p))) {
      WalkReweighted(E, h, E2, p, src, v);
      assert Le(dv, Finite(Weight(ReweightWalk(p, h))));
    }
  }

  /** The potentials as integers: bellman_ford's distances, which are all finite once it
      returns from the virtual source. */
  function Potentials(dist: seq<ExtInt>): (h: seq<int>)
    requires forall v :: 0 <= v < |dist| ==> dist[v].Finite?
    ensures |h| == |dist| && forall v :: 0 <= v < |dist| ==> dist[v] == Finite(h[v])
  {
    seq(|dist|, v requires 0 <= v < |dist| => dist[v].n)
  }

  /** When no edge relaxes and every potential is finite, every reweighted edge has length
      at least 0. */
  lemma ReweightedNonNegative(E: seq<Edge>, dist: seq<ExtInt>)
    requires VerticesIn(E, 0, |dist|) && Stable(E, dist)
    requires forall v :: 0 <= v < |dist| ==> dist[v].Finite?
    ensures forall i :: 0 <= i < |E| ==> ReweightEdge(E[i], Potentials(dist)).w >= 0
  {
    forall i | 0 <= i < |E| ensures ReweightEdge(E[i], Potentials(dist)).w >= 0 {
      assert !Relaxes(dist, E[i]);
    }
  }
}
