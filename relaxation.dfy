/** Edge relaxation over a distance table, as both Bellman-Ford programs do it: a pass
    relaxes every edge in list order, passes repeat until one changes nothing or the
    budget is spent, and a final sweep looks for an edge that still relaxes. */
module Relaxation {
  import opened ExtInt
  import opened Walks

  /** The table a search from src starts with: 0 at src, infinity elsewhere. */
  function Initial(n: nat, src: int): (d: seq<ExtInt>)
    requires 0 <= src < n
    ensures |d| == n && d[src] == Finite(0)
    ensures forall v :: 0 <= v < n && v != src ==> d[v] == Inf
  {
    seq(n, v => if v == src then Finite(0) else Inf)
  }

  /** The relaxation test of bellman_ford: dist[s] is finite and dist[s] + w < dist[d]. */
  predicate Relaxes(dist: seq<ExtInt>, e: Edge)
    requires 0 <= e.s < |dist| && 0 <= e.d < |dist|
  {
    dist[e.s].Finite? && Lt(Finite(dist[e.s].n + e.w), dist[e.d])
  }

  function Relax(dist: seq<ExtInt>, e: Edge): (r: seq<ExtInt>)
    requires 0 <= e.s < |dist| && 0 <= e.d < |dist|
    ensures |r| == |dist|
  {
    if Relaxes(dist, e) then dist[e.d := Finite(dist[e.s].n + e.w)] else dist
  }

  /** The table after relaxing the first k edges in order. */
  function Sweep(edges: seq<Edge>, dist: seq<ExtInt>, k: int): (r: seq<ExtInt>)
    requires VerticesIn(edges, 0, |dist|) && 0 <= k <= |edges|
    ensures |r| == |dist|
  {
    if k == 0 then dist else Relax(Sweep(edges, dist, k - 1), edges[k - 1])
  }

  /** One pass over every edge. */
  function Pass(edges: seq<Edge>, dist: seq<ExtInt>): (r: seq<ExtInt>)
    requires VerticesIn(edges, 0, |dist|)
    ensures |r| == |dist|
  {
    Sweep(edges, dist, |edges|)
  }

  /** Up to k passes, stopping after the first that changes nothing. */
  function Passes(edges: seq<Edge>, dist: seq<ExtInt>, k: nat): (r: seq<ExtInt>)
    requires VerticesIn(edges, 0, |dist|)
    ensures |r| == |dist|
    decreases k
  {
    if k == 0 then dist
    else
      var d := Pass(edges, dist);
      if d == dist then dist else Passes(edges, d, k - 1)
  }

  /** No edge relaxes: the final sweep finds nothing. */
  ghost predicate Stable(edges: seq<Edge>, dist: seq<ExtInt>)
    requires VerticesIn(edges, 0, |dist|)
  {
    forall i :: 0 <= i < |edges| ==> !Relaxes(dist, edges[i])
  }

  /** Entry by entry, a is no larger than b. */
  ghost predicate LeAll(a: seq<ExtInt>, b: seq<ExtInt>)
  {
    |a| == |b| && forall v :: 0 <= v < |a| ==> Le(a[v], b[v])
  }

  /** Every finite entry is the length of some walk from src. */
  ghost predicate AllAttained(edges: seq<Edge>, src: int, dist: seq<ExtInt>)
  {
    forall v :: 0 <= v < |dist| ==> Attained(edges, src, v, dist[v])
  }

  /** No entry exceeds the length of a walk from src of at most m edges. */
  ghost predicate BoundedBy(edges: seq<Edge>, src: int, dist: seq<ExtInt>, m: int)
  {
    forall p, v :: 0 <= v < |dist| && IsWalk(edges, p, src, v) && |p| <= m ==>
      Le(dist[v], Finite(Weight(p)))
  }

  lemma LeTrans(a: ExtInt, b: ExtInt, c: ExtInt)
    requires Le(a, b) && Le(b, c)
    ensures Le(a, c)
  {
  }

  lemma InitialBounds(edges: seq<Edge>, n: nat, src: int)
    requires 0 <= src < n
    ensures AllAttained(edges, src, Initial(n, src)) && BoundedBy(edges, src, Initial(n, src), 0)
  {
    EmptyWalk(edges, src);
  }

  /** Relaxing an edge lowers one entry to a length some walk has. */
  lemma RelaxSound(edges: seq<Edge>, src: int, dist: seq<ExtInt>, e: Edge)
    requires 0 <= e.s < |dist| && 0 <= e.d < |dist| && e in edges
    requires AllAttained(edges, src, dist)
    ensures AllAttained(edges, src, Relax(dist, e)) && LeAll(Relax(dist, e), dist)
  {
    if Relaxes(dist, e) {
      var p :| IsWalk(edges, p, src, e.s) && Weight(p) == dist[e.s].n;
      WalkSnoc(edges, p, src, e.s, e);
      var r := Relax(dist, e);
      forall v | 0 <= v < |r| ensures Attained(edges, src, v, r[v]) {
        if v == e.d {
          assert IsWalk(edges, p + [e], src, v) && Weight(p + [e]) == r[v].n;
        }
      }
    }
  }

  lemma {:induction false} SweepSound(edges: seq<Edge>, src: int, dist: seq<ExtInt>, k: int)
    requires VerticesIn(edges, 0, |dist|) && 0 <= k <= |edges|
    requires AllAttained(edges, src, dist)
    ensures AllAttained(edges, src, Sweep(edges, dist, k)) && LeAll(Sweep(edges, dist, k), dist)
  {
    if k > 0 {
      SweepSound(edges, src, dist, k - 1);
      var d := Sweep(edges, dist, k - 1);
      RelaxSound(edges, src, d, edges[k - 1]);
      forall v | 0 <= v < |dist| ensures Le(Sweep(edges, dist, k)[v], dist[v]) {
        LeTrans(Sweep(edges, dist, k)[v], d[v], dist[v]);
      }
    }
  }

  /** Passes never raise an entry, and every finite entry stays the length of a walk. */
  lemma {:induction false} PassesSound(edges: seq<Edge>, src: int, dist: seq<ExtInt>, k: nat)
    requires VerticesIn(edges, 0, |dist|) && AllAttained(edges, src, dist)
    ensures AllAttained(edges, src, Passes(edges, dist, k)) && LeAll(Passes(edges, dist, k), dist)
    decreases k
  {
    if k > 0 {
      var d := Pass(edges, dist);
      SweepSound(edges, src, dist, |edges|);
      if d != dist {
        PassesSound(edges, src, d, k - 1);
        forall v | 0 <= v < |dist| ensures Le(Passes(edges, dist, k)[v], dist[v]) {
          LeTrans(Passes(edges, d, k - 1)[v], d[v], dist[v]);
        }
      }
    }
  }

  /** Relaxing never raises an entry. */
  lemma RelaxLe(dist: seq<ExtInt>, e: Edge)
    requires 0 <= e.s < |dist| && 0 <= e.d < |dist|
    ensures LeAll(Relax(dist, e), dist)
  {
  }

  /** Later prefixes of a pass are no larger than earlier ones. */
  lemma {:induction false} SweepMonotone(edges: seq<Edge>, dist: seq<ExtInt>, j: int, k: int)
    requires VerticesIn(edges, 0, |dist|) && 0 <= j <= k <= |edges|
    ensures LeAll(Sweep(edges, dist, k), Sweep(edges, dist, j))
  {
    if k > j {
      SweepMonotone(edges, dist, j, k - 1);
      var d := Sweep(edges, dist, k - 1);
      RelaxLe(d, edges[k - 1]);
      forall v | 0 <= v < |dist| ensures Le(Sweep(edges, dist, k)[v], Sweep(edges, dist, j)[v]) {
        LeTrans(Sweep(edges, dist, k)[v], d[v], Sweep(edges, dist, j)[v]);
      }
    }
  }

  /** After a pass, the head of every edge out of a finite entry is within that entry plus
      the edge's length. */
  lemma PassReaches(edges: seq<Edge>, dist: seq<ExtInt>, j: int)
    requires VerticesIn(edges, 0, |dist|) && 0 <= j < |edges| && dist[edges[j].s].Finite?
    ensures Le(Pass(edges, dist)[edges[j].d], Finite(dist[edges[j].s].n + edges[j].w))
  {
    var e := edges[j];
    var dj := Sweep(edges, dist, j);
    SweepMonotone(edges, dist, 0, j);
    assert Le(dj[e.s], dist[e.s]);
    assert Le(Sweep(edges, dist, j + 1)[e.d], Finite(dist[e.s].n + e.w));
    SweepMonotone(edges, dist, j + 1, |edges|);
    LeTrans(Pass(edges, dist)[e.d], Sweep(edges, dist, j + 1)[e.d], Finite(dist[e.s].n + e.w));
  }

  /** A pass that changes nothing leaves no edge that relaxes. */
  lemma FixpointStable(edges: seq<Edge>, dist: seq<ExtInt>)
    requires VerticesIn(edges, 0, |dist|) && Pass(edges, dist) == dist
    ensures Stable(edges, dist)
  {
    forall i | 0 <= i < |edges| ensures !Relaxes(dist, edges[i]) {
      if dist[edges[i].s].Finite? {
        PassReaches(edges, dist, i);
      }
    }
  }

  /** One more pass covers walks of one more edge. */
  lemma PassBounded(edges: seq<Edge>, src: int, dist: seq<ExtInt>, m: nat)
    requires VerticesIn(edges, 0, |dist|) && BoundedBy(edges, src, dist, m)
    ensures BoundedBy(edges, src, Pass(edges, dist), m + 1)
  {
    var d := Pass(edges, dist);
    SweepMonotone(edges, dist, 0, |edges|);
    forall p, v | 0 <= v < |d| && IsWalk(edges, p, src, v) && |p| <= m + 1
      ensures Le(d[v], Finite(Weight(p)))
    {
      if |p| <= m {
        LeTrans(d[v], dist[v], Finite(Weight(p)));
      } else {
        LastEdge(edges, src, dist, p, v, m);
      }
    }
  }

  lemma LastEdge(edges: seq<Edge>, src: int, dist: seq<ExtInt>, p: seq<Edge>, v: int, m: nat)
    requires VerticesIn(edges, 0, |dist|) && BoundedBy(edges, src, dist, m)
    requires 0 <= v < |dist| && IsWalk(edges, p, src, v) && |p| == m + 1
    ensures Le(Pass(edges, dist)[v], Finite(Weight(p)))
  {
    var q, e := p[..|p| - 1], p[|p| - 1];
    WalkSlice(edges, p, src, v, 0, |p| - 1);
    assert p[0..|p| - 1] == q;
    var j :| 0 <= j < |edges| && edges[j] == e;
    assert Le(dist[e.s], Finite(Weight(q)));
    PassReaches(edges, dist, j);
  }

  /** Up to k passes from a table bounded by walks of m edges end at a table that no pass
      changes, or one bounded by walks of m + k edges. */
  lemma {:induction false} PassesBounded(edges: seq<Edge>, src: int, dist: seq<ExtInt>, m: nat, k: nat)
    requires VerticesIn(edges, 0, |dist|) && BoundedBy(edges, src, dist, m)
    ensures var r := Passes(edges, dist, k);
      Pass(edges, r) == r || BoundedBy(edges, src, r, m + k)
    decreases k
  {
    if k > 0 {
      var d := Pass(edges, dist);
      if d != dist {
        PassBounded(edges, src, dist, m);
        PassesBounded(edges, src, d, m + 1, k - 1);
      }
    }
  }

  /** Where no edge relaxes and src's own entry is at most 0, no walk from src is shorter
      than its end's entry. */
  lemma {:induction false} StableWalk(edges: seq<Edge>, src: int, dist: seq<ExtInt>, p: seq<Edge>, v: int)
    requires VerticesIn(edges, 0, |dist|) && Stable(edges, dist)
    requires 0 <= src < |dist| && Le(dist[src], Finite(0))
    requires 0 <= v < |dist| && IsWalk(edges, p, src, v)
    ensures Le(dist[v], Finite(Weight(p)))
    decreases |p|
  {
    if p != [] {
      var q, e := p[..|p| - 1], p[|p| - 1];
      var j := WalkLast(edges, p, src, v);
      StableWalk(edges, src, dist, q, e.s);
      StableEdge(edges, dist, j, Weight(q));
      assert Weight(p) == Weight(q) + e.w;
    }
  }

  /** Along an edge that does not relax, a bound on its start gives one on its end. */
  lemma StableEdge(edges: seq<Edge>, dist: seq<ExtInt>, j: int, x: int)
    requires VerticesIn(edges, 0, |dist|) && Stable(edges, dist) && 0 <= j < |edges|
    requires Le(dist[edges[j].s], Finite(x))
    ensures Le(dist[edges[j].d], Finite(x + edges[j].w))
  {
    assert !Relaxes(dist, edges[j]);
  }

  lemma StableBelow(edges: seq<Edge>, src: int, dist: seq<ExtInt>)
    requires VerticesIn(edges, 0, |dist|) && Stable(edges, dist)
    requires 0 <= src < |dist| && Le(dist[src], Finite(0))
    ensures forall v :: 0 <= v < |dist| ==> Below(edges, src, v, dist[v])
  {
    forall v, p | 0 <= v < |dist| && IsWalk(edges, p, src, v) ensures Le(dist[v], Finite(Weight(p))) {
      StableWalk(edges, src, dist, p, v);
    }
  }

  /** Where every entry is bounded by all walks and attained by one, no edge relaxes. */
  lemma ShortestStable(edges: seq<Edge>, src: int, dist: seq<ExtInt>)
    requires VerticesIn(edges, 0, |dist|) && AllAttained(edges, src, dist)
    requires forall v :: 0 <= v < |dist| ==> Below(edges, src, v, dist[v])
    ensures Stable(edges, dist)
  {
    forall i | 0 <= i < |edges| ensures !Relaxes(dist, edges[i]) {
      var e := edges[i];
      if dist[e.s].Finite? {
        var p :| IsWalk(edges, p, src, e.s) && Weight(p) == dist[e.s].n;
        WalkSnoc(edges, p, src, e.s, e);
        assert Le(dist[e.d], Finite(Weight(p + [e])));
      }
    }
  }

  /** The least entry among lo to hi - 1 other than src's, or infinity. */
  function MinOther(dist: seq<ExtInt>, src: int, lo: int, hi: int): (m: ExtInt)
    requires 0 <= lo <= hi <= |dist|
    ensures forall v :: lo <= v < hi && v != src ==> Le(m, dist[v])
    ensures m.Finite? ==> exists v :: lo <= v < hi && v != src && dist[v] == m
    decreases hi - lo
  {
    if hi == lo then Inf
    else if hi - 1 == src then MinOther(dist, src, lo, hi - 1)
    else Min(MinOther(dist, src, lo, hi - 1), dist[hi - 1])
  }

  /** Over a table of shortest distances from src, the least entry other than src's is the
      least length of a walk from src to another vertex. */
  lemma ShortestLeast(edges: seq<Edge>, lo: int, hi: int, src: int, dist: seq<ExtInt>)
    requires 0 <= lo <= hi <= |dist|
    requires forall v :: lo <= v < hi ==> Shortest(edges, src, v, dist[v])
    ensures LeastFrom(edges, lo, hi, src, MinOther(dist, src, lo, hi))
  {
    var m := MinOther(dist, src, lo, hi);
    forall v, p | lo <= v < hi && v != src && IsWalk(edges, p, src, v) ensures Le(m, Finite(Weight(p))) {
      LeTrans(m, dist[v], Finite(Weight(p)));
    }
    if m.Finite? {
      var v :| lo <= v < hi && v != src && dist[v] == m;
      var p :| IsWalk(edges, p, src, v) && Weight(p) == dist[v].n;
    }
  }

  /** With a table of hi entries over vertices lo to hi - 1, hi - lo - 1 passes from the
      initial table leave a table in which an edge still relaxes exactly when a negative
      closed walk is reachable from src; when none does, every entry is the shortest
      distance from src. */
  lemma PassesCorrect(edges: seq<Edge>, lo: int, hi: int, src: int, k: nat, d: seq<ExtInt>)
    requires 0 <= lo <= src < hi && VerticesIn(edges, lo, hi) && k == hi - lo - 1
    requires VerticesIn(edges, 0, hi) && d == Passes(edges, Initial(hi, src), k)
    ensures AllAttained(edges, src, d)
    ensures Stable(edges, d) <==> !NegativeCycleFrom(edges, src)
    ensures Stable(edges, d) ==> forall v :: 0 <= v < hi ==> Shortest(edges, src, v, d[v])
  {
    var init := Initial(hi, src);
    InitialBounds(edges, hi, src);
    PassesSound(edges, src, init, k);
    assert Le(d[src], Finite(0));
    if Stable(edges, d) {
      StableBelow(edges, src, d);
      StableNoNegativeCycle(edges, src, d);
    } else {
      PassesBounded(edges, src, init, 0, k);
      if Pass(edges, d) == d {
        FixpointStable(edges, d);
      } else if !NegativeCycleFrom(edges, src) {
        BoundedBelow(edges, lo, hi, src, d);
        ShortestStable(edges, src, d);
      }
    }
  }

  /** Without a reachable negative closed walk, bounding the walks of fewer edges than
      there are vertices bounds them all. */
  lemma BoundedBelow(edges: seq<Edge>, lo: int, hi: int, src: int, d: seq<ExtInt>)
    requires 0 <= lo <= src < hi && |d| == hi && VerticesIn(edges, lo, hi)
    requires !NegativeCycleFrom(edges, src) && BoundedBy(edges, src, d, hi - lo - 1)
    ensures forall v :: 0 <= v < |d| ==> Below(edges, src, v, d[v])
  {
    forall v, p | 0 <= v < hi && IsWalk(edges, p, src, v) ensures Le(d[v], Finite(Weight(p))) {
      var q := ShortCut(edges, lo, hi, p, src, v);
      assert Le(d[v], Finite(Weight(q)));
    }
  }

  /** A table that bounds every walk from src rules out a negative closed walk reachable
      from src. */
  lemma StableNoNegativeCycle(edges: seq<Edge>, src: int, dist: seq<ExtInt>)
    requires AllAttained(edges, src, dist)
    requires forall v :: 0 <= v < |dist| ==> Below(edges, src, v, dist[v])
    requires (forall i :: 0 <= i < |edges| ==> 0 <= edges[i].d < |dist|) && 0 <= src < |dist|
    ensures !NegativeCycleFrom(edges, src)
  {
    if NegativeCycleFrom(edges, src) {
      var p, c, x :| IsWalk(edges, p, src, x) && IsWalk(edges, c, x, x) && Weight(c) < 0;
      assert 0 <= x < |dist| by {
        if p == [] {
        } else {
          assert p[|p| - 1] in edges;
        }
      }
      assert Le(dist[x], Finite(Weight(p)));
      var q := NoLowerBound(edges, src, p, c, x, dist[x].n);
      assert false;
    }
  }
}
