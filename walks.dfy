/** Walks in a weighted directed graph given as a list of edges, the lengths of walks,
    and shortest distances: the vocabulary of the shortest-path programs. */
module Walks {
  import opened ExtInt
  import opened Reachability

  /** An edge s -> d of length w, as the edge lists hold it. */
  datatype Edge = Edge(s: int, d: int, w: int)

  /** The lines of an input file name vertices 1 to vertexCount only. */
  ghost predicate FileEdges(vertexCount: int, lines: seq<Edge>)
  {
    forall i :: 0 <= i < |lines| ==> 1 <= lines[i].s <= vertexCount && 1 <= lines[i].d <= vertexCount
  }

  /** The vertex a walk from u has reached after its first i edges. */
  function At(u: int, p: seq<Edge>, i: int): int
    requires 0 <= i <= |p|
  {
    if i == 0 then u else p[i - 1].d
  }

  /** p is a walk from u to v along edges of the list. */
  ghost predicate IsWalk(edges: seq<Edge>, p: seq<Edge>, u: int, v: int)
  {
    (forall i :: 0 <= i < |p| ==> p[i] in edges)
    && (forall i :: 0 <= i < |p| ==> p[i].s == At(u, p, i))
    && At(u, p, |p|) == v
  }

  /** The length of a walk: the sum of its edge lengths. */
  function Weight(p: seq<Edge>): int
  {
    if p == [] then 0 else Weight(p[..|p| - 1]) + p[|p| - 1].w
  }

  /** Every edge joins two of the vertices lo to hi - 1. */
  ghost predicate VerticesIn(edges: seq<Edge>, lo: int, hi: int)
  {
    forall i :: 0 <= i < |edges| ==> lo <= edges[i].s < hi && lo <= edges[i].d < hi
  }

  /** Some closed walk through a vertex that src reaches has negative length. */
  ghost predicate NegativeCycleFrom(edges: seq<Edge>, src: int)
  {
    exists p, c, x :: IsWalk(edges, p, src, x) && IsWalk(edges, c, x, x) && Weight(c) < 0
  }

  /** Some walk from src to v has length dv, when dv is finite. */
  ghost predicate Attained(edges: seq<Edge>, src: int, v: int, dv: ExtInt)
  {
    dv.Finite? ==> exists p :: IsWalk(edges, p, src, v) && Weight(p) == dv.n
  }

  /** No walk from src to v is shorter than dv (so dv is infinite only when v cannot be
      reached). */
  ghost predicate Below(edges: seq<Edge>, src: int, v: int, dv: ExtInt)
  {
    forall p :: IsWalk(edges, p, src, v) ==> Le(dv, Finite(Weight(p)))
  }

  /** dv is the shortest distance from src to v: the least length of a walk, or
      infinity when there is none. */
  ghost predicate Shortest(edges: seq<Edge>, src: int, v: int, dv: ExtInt)
  {
    Attained(edges, src, v, dv) && Below(edges, src, v, dv)
  }

  lemma {:induction false} WeightAppend(p: seq<Edge>, q: seq<Edge>)
    ensures Weight(p + q) == Weight(p) + Weight(q)
    decreases |q|
  {
    if q != [] {
      var q', e := q[..|q| - 1], q[|q| - 1];
      assert (p + q)[..|p + q| - 1] == p + q';
      assert q[..|q| - 1] == q';
      WeightAppend(p, q');
    } else {
      assert p + q == p;
    }
  }

  lemma EmptyWalk(edges: seq<Edge>, u: int)
    ensures IsWalk(edges, [], u, u) && Weight([]) == 0
  {
  }

  /** A walk followed by an edge out of its end. */
  lemma WalkSnoc(edges: seq<Edge>, p: seq<Edge>, u: int, v: int, e: Edge)
    requires IsWalk(edges, p, u, v) && e in edges && e.s == v
    ensures IsWalk(edges, p + [e], u, e.d) && Weight(p + [e]) == Weight(p) + e.w
  {
    var q := p + [e];
    assert q[..|q| - 1] == p;
    forall i | 0 <= i < |q| ensures q[i].s == At(u, q, i) {
      if i < |p| {
        assert q[i] == p[i];
        assert At(u, q, i) == At(u, p, i);
      }
    }
  }

  /** A walk followed by a walk out of its end. */
  lemma WalkConcat(edges: seq<Edge>, p: seq<Edge>, q: seq<Edge>, u: int, x: int, v: int)
    requires IsWalk(edges, p, u, x) && IsWalk(edges, q, x, v)
    ensures IsWalk(edges, p + q, u, v) && Weight(p + q) == Weight(p) + Weight(q)
  {
    var r := p + q;
    forall i | 0 <= i < |r| ensures r[i] in edges && r[i].s == At(u, r, i) {
      if i < |p| {
        assert r[i] == p[i];
        assert At(u, r, i) == At(u, p, i);
      } else {
        assert r[i] == q[i - |p|];
        assert At(u, r, i) == At(x, q, i - |p|);
      }
    }
    if q != [] {
      assert At(u, r, |r|) == At(x, q, |q|);
    }
    WeightAppend(p, q);
  }

  /** The edges i to j - 1 of a walk are a walk between the vertices it is at then. */
  lemma WalkSlice(edges: seq<Edge>, p: seq<Edge>, u: int, v: int, i: int, j: int)
    requires IsWalk(edges, p, u, v) && 0 <= i <= j <= |p|
    ensures IsWalk(edges, p[i..j], At(u, p, i), At(u, p, j))
  {
    var q := p[i..j];
    forall k | 0 <= k < |q| ensures q[k] in edges && q[k].s == At(At(u, p, i), q, k) {
      assert q[k] == p[i + k];
    }
    if j > i {
      assert q[|q| - 1] == p[j - 1];
    }
  }

  /** The first j edges of a walk from u are a walk from u. */
  lemma WalkPrefix(edges: seq<Edge>, p: seq<Edge>, u: int, v: int, j: int)
    requires IsWalk(edges, p, u, v) && 0 <= j <= |p|
    ensures IsWalk(edges, p[..j], u, At(u, p, j))
  {
    var q := p[..j];
    forall k | 0 <= k < |q| ensures q[k] in edges && q[k].s == At(u, q, k) {
      assert q[k] == p[k];
    }
  }

  /** A walk that is not empty is a shorter walk followed by one of the edges, edges[j]. */
  lemma WalkLast(edges: seq<Edge>, p: seq<Edge>, u: int, v: int) returns (j: int)
    requires IsWalk(edges, p, u, v) && p != []
    ensures IsWalk(edges, p[..|p| - 1], u, p[|p| - 1].s)
    ensures 0 <= j < |edges| && edges[j] == p[|p| - 1] && p[|p| - 1].d == v
  {
    WalkPrefix(edges, p, u, v, |p| - 1);
    assert p[|p| - 1] in edges;
    j :| 0 <= j < |edges| && edges[j] == p[|p| - 1];
  }

  /** The vertices a walk from u passes, u first. */
  function Visits(u: int, p: seq<Edge>): (vs: seq<int>)
    ensures |vs| == |p| + 1 && forall i :: 0 <= i <= |p| ==> vs[i] == At(u, p, i)
  {
    seq(|p| + 1, i requires 0 <= i <= |p| => At(u, p, i))
  }

  lemma VisitsSnoc(u: int, p: seq<Edge>, e: Edge)
    ensures Visits(u, p + [e]) == Visits(u, p) + [e.d]
  {
    var q := p + [e];
    forall i | 0 <= i <= |p| ensures At(u, q, i) == At(u, p, i) {
      if i > 0 {
        assert q[i - 1] == p[i - 1];
      }
    }
  }

  /** m is the least length of a walk from src to another of the vertices lo to hi - 1,
      or infinity when there is no such walk. */
  ghost predicate LeastFrom(edges: seq<Edge>, lo: int, hi: int, src: int, m: ExtInt)
  {
    (forall v, p :: lo <= v < hi && v != src && IsWalk(edges, p, src, v) ==> Le(m, Finite(Weight(p))))
    && (m.Finite? ==> exists v, p :: lo <= v < hi && v != src && IsWalk(edges, p, src, v) && Weight(p) == m.n)
  }

  /** m is the least length of a walk from one of the vertices lo to k - 1 to a different
      one of the vertices lo to hi - 1, or infinity when there is no such walk; with k == hi
      it is the shortest shortest path. */
  ghost predicate LeastPair(edges: seq<Edge>, lo: int, k: int, hi: int, m: ExtInt)
  {
    (forall u, v, p :: lo <= u < k && lo <= v < hi && u != v && IsWalk(edges, p, u, v) ==>
       Le(m, Finite(Weight(p))))
    && (m.Finite? ==> exists u, v, p :: lo <= u < k && lo <= v < hi && u != v && IsWalk(edges, p, u, v)
                        && Weight(p) == m.n)
  }

  /** Taking the smaller of the pairs so far and the next source's best extends the
      range of sources by one. */
  lemma LeastPairStep(edges: seq<Edge>, lo: int, k: int, hi: int, best: ExtInt, m: ExtInt)
    requires LeastPair(edges, lo, k, hi, best) && LeastFrom(edges, lo, hi, k, m) && lo <= k
    ensures LeastPair(edges, lo, k + 1, hi, if Lt(m, best) then m else best)
  {
    var r := if Lt(m, best) then m else best;
    forall u, v, p | lo <= u < k + 1 && lo <= v < hi && u != v && IsWalk(edges, p, u, v)
      ensures Le(r, Finite(Weight(p)))
    {
      if u == k {
        assert Le(m, Finite(Weight(p)));
      } else {
        assert Le(best, Finite(Weight(p)));
      }
    }
    if r == m && m.Finite? {
      var v, p :| lo <= v < hi && v != k && IsWalk(edges, p, k, v) && Weight(p) == m.n;
      assert lo <= k < k + 1;
    }
  }

  lemma LeastPairEmpty(edges: seq<Edge>, lo: int, hi: int)
    ensures LeastPair(edges, lo, lo, hi, Inf)
  {
  }

  /** The integers lo to hi - 1. */
  function Interval(lo: int, hi: int): (r: set<int>)
    ensures forall x :: x in r <==> lo <= x < hi
    decreases hi - lo
  {
    if hi <= lo then {} else Interval(lo, hi - 1) + {hi - 1}
  }

  lemma {:induction false} IntervalCard(lo: int, hi: int)
    requires lo <= hi
    ensures |Interval(lo, hi)| == hi - lo
    decreases hi - lo
  {
    if hi > lo {
      IntervalCard(lo, hi - 1);
    }
  }

  /** More than hi - lo entries between lo and hi - 1 repeat one of them. */
  lemma Pigeonhole(vs: seq<int>, lo: int, hi: int)
    requires lo <= hi && |vs| > hi - lo && forall i :: 0 <= i < |vs| ==> lo <= vs[i] < hi
    ensures !Distinct(vs)
  {
    if Distinct(vs) {
      var elems := set x | x in vs;
      DistinctCard(vs, elems);
      IntervalCard(lo, hi);
      SubsetCard(elems, Interval(lo, hi));
    }
  }

  /** Without a negative closed walk through a vertex u reaches, every walk from u can be
      shortened to one with fewer edges than there are vertices, and no longer. */
  lemma {:induction false} ShortCut(edges: seq<Edge>, lo: int, hi: int, p: seq<Edge>, u: int, v: int)
    returns (q: seq<Edge>)
    requires VerticesIn(edges, lo, hi) && lo <= u < hi && !NegativeCycleFrom(edges, u)
    requires IsWalk(edges, p, u, v)
    ensures IsWalk(edges, q, u, v) && |q| < hi - lo && Weight(q) <= Weight(p)
    decreases |p|
  {
    if |p| < hi - lo {
      q := p;
    } else {
      var vs := Visits(u, p);
      forall k | 0 <= k < |vs| ensures lo <= vs[k] < hi {
        if k > 0 {
          assert p[k - 1] in edges;
        }
      }
      Pigeonhole(vs, lo, hi);
      var i, j :| 0 <= i < j < |vs| && vs[i] == vs[j];
      WalkSlice(edges, p, u, v, 0, i);
      WalkSlice(edges, p, u, v, i, j);
      NonNegativeCycle(edges, u, p[0..i], p[i..j], At(u, p, i));
      CutCycle(edges, p, u, v, i, j);
      q := ShortCut(edges, lo, hi, p[..i] + p[j..], u, v);
    }
  }

  lemma NonNegativeCycle(edges: seq<Edge>, u: int, p: seq<Edge>, c: seq<Edge>, x: int)
    requires !NegativeCycleFrom(edges, u) && IsWalk(edges, p, u, x) && IsWalk(edges, c, x, x)
    ensures Weight(c) >= 0
  {
  }

  /** Cutting out the closed piece between two visits of one vertex leaves a walk between
      the same ends, no longer when that piece is not negative. */
  lemma CutCycle(edges: seq<Edge>, p: seq<Edge>, u: int, v: int, i: int, j: int)
    requires IsWalk(edges, p, u, v) && 0 <= i < j <= |p| && At(u, p, i) == At(u, p, j)
    requires Weight(p[i..j]) >= 0
    ensures IsWalk(edges, p[..i] + p[j..], u, v) && Weight(p[..i] + p[j..]) <= Weight(p)
  {
    var x := At(u, p, i);
    WalkSlice(edges, p, u, v, 0, i);
    WalkSlice(edges, p, u, v, i, j);
    WalkSlice(edges, p, u, v, j, |p|);
    assert p[..i] == p[0..i] && p[j..] == p[j..|p|];
    WalkConcat(edges, p[..i], p[j..], u, x, v);
    WeightCut(p, i, j);
  }

  /** The length of a walk is that of its three pieces. */
  lemma WeightCut(p: seq<Edge>, i: int, j: int)
    requires 0 <= i <= j <= |p|
    ensures Weight(p) == Weight(p[..i]) + Weight(p[i..j]) + Weight(p[j..])
  {
    assert p[..i] + p[i..j] == p[..j];
    assert p[..j] + p[j..] == p;
    WeightAppend(p[..i], p[i..j]);
    WeightAppend(p[..j], p[j..]);
  }

  /** A closed walk repeated k times. */
  function Repeat(c: seq<Edge>, k: nat): seq<Edge>
  {
    if k == 0 then [] else Repeat(c, k - 1) + c
  }

  lemma {:induction false} RepeatWalk(edges: seq<Edge>, c: seq<Edge>, x: int, k: nat)
    requires IsWalk(edges, c, x, x) && Weight(c) < 0
    ensures IsWalk(edges, Repeat(c, k), x, x) && Weight(Repeat(c, k)) + k <= 0
  {
    if k > 0 {
      RepeatWalk(edges, c, x, k - 1);
      WalkConcat(edges, Repeat(c, k - 1), c, x, x, x);
    }
  }

  /** A negative closed walk through a vertex src reaches leaves no lower bound on the
      lengths of walks from src to that vertex. */
  lemma NoLowerBound(edges: seq<Edge>, src: int, p: seq<Edge>, c: seq<Edge>, x: int, bound: int)
    returns (q: seq<Edge>)
    requires IsWalk(edges, p, src, x) && IsWalk(edges, c, x, x) && Weight(c) < 0
    ensures IsWalk(edges, q, src, x) && Weight(q) < bound
  {
    var k: nat := if Weight(p) < bound then 0 else Weight(p) - bound + 1;
    RepeatWalk(edges, c, x, k);
    WalkConcat(edges, p, Repeat(c, k), src, x, x);
    q := p + Repeat(c, k);
  }
}
