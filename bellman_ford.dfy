/** All-pairs shortest paths by running Bellman-Ford from every vertex
    (allPairsShortestPath_BellmanFord.py). Vertices are 1 to vertexCount; the distance and
    predecessor tables have a spare entry 0 that no edge touches. */
module AllPairsBellmanFord {
  import opened Wrappers
  import opened ExtInt
  import opened Walks
  import opened Relaxation
  import Reachability

  /** What bellman_ford hands back: the exception it raises, or the least distance it
      assigned and the vertex path to where it was attained. */
  datatype Outcome = NegativeCycle | Found(shortestPath: ExtInt, path: Option<seq<int>>)

  /** The edge list, appended to by addEdge. */
  class Graph {
    var edges: seq<Edge>

    constructor ()
      ensures edges == []
    {
      edges := [];
    }

    method AddEdge(s: int, d: int, w: int)
      modifies this
      ensures edges == old(edges) + [Edge(s, d, w)]
    {
      edges := edges + [Edge(s, d, w)];
    }
  }

  /** prev[v] records how v's entry was last lowered: -1 while it is infinite; v itself when
      v is the source and its entry is still 0; otherwise the tail of an edge into v whose
      length, added to the tail's entry, is within v's entry (a self-loop only when it is
      negative). */
  ghost predicate PrevAt(edges: seq<Edge>, src: int, dist: seq<ExtInt>, prev: seq<int>, v: int)
    requires |prev| == |dist| && 0 <= v < |dist|
  {
    (prev[v] == -1 <==> dist[v].Inf?)
    && (prev[v] != -1 ==>
          (v == src && prev[v] == src && dist[v] == Finite(0))
          || (0 <= prev[v] < |dist| && dist[prev[v]].Finite? && dist[v].Finite?
              && exists k :: 0 <= k < |edges| && edges[k].s == prev[v] && edges[k].d == v
                   && dist[prev[v]].n + edges[k].w <= dist[v].n && (prev[v] == v ==> edges[k].w < 0)))
  }

  ghost predicate PrevOk(edges: seq<Edge>, src: int, dist: seq<ExtInt>, prev: seq<int>)
  {
    |prev| == |dist| && forall v :: 0 <= v < |dist| ==> PrevAt(edges, src, dist, prev, v)
  }

  /** shortestPath is the least entry assigned so far and dest holds it; src's entry has
      only been assigned once it went below 0. */
  ghost predicate Tracked(src: int, dist: seq<ExtInt>, sp: ExtInt, dest: Option<int>)
  {
    0 <= src < |dist| && Le(dist[src], Finite(0))
    && (dest.None? <==> sp.Inf?)
    && (dest.Some? ==> 1 <= dest.value < |dist| && dist[dest.value] == sp
                       && (dest.value == src ==> sp.Finite? && sp.n < 0))
    && (forall v :: 0 <= v < |dist| && v != src ==> Le(sp, dist[v]))
    && (Le(sp, dist[src]) || dist[src] == Finite(0))
  }

  lemma PrevRelax(edges: seq<Edge>, src: int, dist: seq<ExtInt>, prev: seq<int>, j: int)
    requires VerticesIn(edges, 0, |dist|) && 0 <= j < |edges| && Relaxes(dist, edges[j])
    requires PrevOk(edges, src, dist, prev)
    ensures PrevOk(edges, src, Relax(dist, edges[j]), prev[edges[j].d := edges[j].s])
  {
    var e := edges[j];
    var dist', prev' := Relax(dist, e), prev[e.d := e.s];
    forall v | 0 <= v < |dist'| ensures PrevAt(edges, src, dist', prev', v) {
      assert PrevAt(edges, src, dist, prev, v);
      if v == e.d {
        assert edges[j].s == prev'[v] && edges[j].d == v;
      } else if prev[v] != -1 && !(v == src && prev[v] == src && dist[v] == Finite(0)) {
        var k :| 0 <= k < |edges| && edges[k].s == prev[v] && edges[k].d == v
          && dist[prev[v]].n + edges[k].w <= dist[v].n && (prev[v] == v ==> edges[k].w < 0);
        assert dist'[prev[v]].n + edges[k].w <= dist'[v].n;
      }
    }
  }

  lemma TrackRelax(edges: seq<Edge>, src: int, dist: seq<ExtInt>, sp: ExtInt, dest: Option<int>, j: int)
    requires VerticesIn(edges, 1, |dist|) && 0 <= j < |edges| && Relaxes(dist, edges[j])
    requires Tracked(src, dist, sp, dest)
    ensures var d := Relax(dist, edges[j]);
      Tracked(src, d, if Lt(d[edges[j].d], sp) then d[edges[j].d] else sp,
              if Lt(d[edges[j].d], sp) then Some(edges[j].d) else dest)
  {
    assert 1 <= edges[j].d;
  }

  /** When each entry was last lowered: stamp[v] is the step of the run at which v's
      entry took its present value, and every step so far is below clock. Outside the
      start's own case, the predecessor u of v is joined to it by an edge that lies strictly
      within v's entry, because u's entry has dropped since v's was set, or that attains it
      exactly, and then u's entry was set before v's. */
  ghost predicate StampAt(edges: seq<Edge>, src: int, dist: seq<ExtInt>, prev: seq<int>,
                          stamp: seq<int>, v: int)
    requires |prev| == |dist| && |stamp| == |dist| && 0 <= v < |dist|
  {
    prev[v] != -1 && !(v == src && prev[v] == src && dist[v] == Finite(0)) ==>
      0 <= prev[v] < |dist| && dist[prev[v]].Finite? && dist[v].Finite?
      && exists k :: 0 <= k < |edges| && edges[k].s == prev[v] && edges[k].d == v
           && (dist[prev[v]].n + edges[k].w < dist[v].n
               || (dist[prev[v]].n + edges[k].w == dist[v].n && stamp[prev[v]] < stamp[v]))
  }

  ghost predicate Stamped(edges: seq<Edge>, src: int, dist: seq<ExtInt>, prev: seq<int>,
                          stamp: seq<int>, clock: int)
  {
    |prev| == |dist| && |stamp| == |dist|
    && (forall v :: 0 <= v < |dist| ==> stamp[v] < clock)
    && forall v :: 0 <= v < |dist| ==> StampAt(edges, src, dist, prev, stamp, v)
  }

  /** Relaxing an edge stamps its end with the current step: the new predecessor attains
      the lowered entry and was set earlier, and every vertex whose predecessor is that end
      now lies strictly above it. */
  lemma StampRelax(edges: seq<Edge>, src: int, dist: seq<ExtInt>, prev: seq<int>, stamp: seq<int>,
                   clock: int, j: int)
    requires VerticesIn(edges, 0, |dist|) && 0 <= j < |edges| && Relaxes(dist, edges[j])
    requires Stamped(edges, src, dist, prev, stamp, clock)
    ensures Stamped(edges, src, Relax(dist, edges[j]), prev[edges[j].d := edges[j].s],
                    stamp[edges[j].d := clock], clock + 1)
  {
    var e := edges[j];
    var dist', prev', stamp' := Relax(dist, e), prev[e.d := e.s], stamp[e.d := clock];
    forall v | 0 <= v < |dist'| ensures StampAt(edges, src, dist', prev', stamp', v) {
      assert StampAt(edges, src, dist, prev, stamp, v);
      if v == e.d {
        assert edges[j].s == prev'[v] && edges[j].d == v;
      } else if prev[v] != -1 && !(v == src && prev[v] == src && dist[v] == Finite(0)) {
        var k :| 0 <= k < |edges| && edges[k].s == prev[v] && edges[k].d == v
          && (dist[prev[v]].n + edges[k].w < dist[v].n
              || (dist[prev[v]].n + edges[k].w == dist[v].n && stamp[prev[v]] < stamp[v]));
        if prev[v] == e.d {
          assert dist'[prev[v]].n + edges[k].w < dist'[v].n;
        } else {
          assert dist'[prev[v]] == dist[prev[v]] && stamp'[prev[v]] == stamp[prev[v]];
        }
      }
    }
  }

  /** What holds after the first j edges of a pass that started from dist0. */
  ghost predicate PassInv(edges: seq<Edge>, src: int, dist0: seq<ExtInt>, j: int, dist: seq<ExtInt>,
                          prev: seq<int>, sp: ExtInt, dest: Option<int>, updated: bool)
  {
    VerticesIn(edges, 1, |dist0|) && VerticesIn(edges, 0, |dist0|)
    && 0 <= j <= |edges| && dist == Sweep(edges, dist0, j)
    && LeAll(dist, dist0) && (updated <==> dist != dist0)
    && PrevOk(edges, src, dist, prev) && Tracked(src, dist, sp, dest)
  }

  lemma PassRelaxed(edges: seq<Edge>, src: int, dist0: seq<ExtInt>, j: int, dist: seq<ExtInt>,
                    prev: seq<int>, sp: ExtInt, dest: Option<int>, updated: bool,
                    dist': seq<ExtInt>, prev': seq<int>, sp': ExtInt, dest': Option<int>)
    requires PassInv(edges, src, dist0, j, dist, prev, sp, dest, updated) && j < |edges|
    requires Relaxes(dist, edges[j])
    requires dist' == dist[edges[j].d := Finite(dist[edges[j].s].n + edges[j].w)]
    requires prev' == prev[edges[j].d := edges[j].s]
    requires if Lt(dist'[edges[j].d], sp) then sp' == dist'[edges[j].d] && dest' == Some(edges[j].d)
             else sp' == sp && dest' == dest
    ensures PassInv(edges, src, dist0, j + 1, dist', prev', sp', dest', true)
  {
    var e := edges[j];
    PrevRelax(edges, src, dist, prev, j);
    TrackRelax(edges, src, dist, sp, dest, j);
    assert dist' == Sweep(edges, dist0, j + 1);
    assert Lt(dist'[e.d], dist[e.d]) && Le(dist[e.d], dist0[e.d]);
    forall v | 0 <= v < |dist'| ensures Le(dist'[v], dist0[v]) {
      LeTrans(dist'[v], dist[v], dist0[v]);
    }
  }

  lemma PassSkipped(edges: seq<Edge>, src: int, dist0: seq<ExtInt>, j: int, dist: seq<ExtInt>,
                    prev: seq<int>, sp: ExtInt, dest: Option<int>, updated: bool)
    requires PassInv(edges, src, dist0, j, dist, prev, sp, dest, updated) && j < |edges|
    requires !Relaxes(dist, edges[j])
    ensures PassInv(edges, src, dist0, j + 1, dist, prev, sp, dest, updated)
  {
  }

  /** One pass of bellman_ford's loop over the edges (lines 73-83). */
  method RelaxPass(edges: seq<Edge>, src: int, dist0: seq<ExtInt>, prev0: seq<int>, sp0: ExtInt,
                   dest0: Option<int>, ghost stamp0: seq<int>, ghost clock0: int)
    returns (dist: seq<ExtInt>, prev: seq<int>, sp: ExtInt, dest: Option<int>, updated: bool,
             ghost stamp: seq<int>, ghost clock: int)
    requires VerticesIn(edges, 1, |dist0|)
    requires PrevOk(edges, src, dist0, prev0) && Tracked(src, dist0, sp0, dest0)
    requires Stamped(edges, src, dist0, prev0, stamp0, clock0)
    ensures VerticesIn(edges, 0, |dist0|) && dist == Pass(edges, dist0)
    ensures updated <==> dist != dist0
    ensures PrevOk(edges, src, dist, prev) && Tracked(src, dist, sp, dest)
    ensures Stamped(edges, src, dist, prev, stamp, clock)
  {
    dist, prev, sp, dest, updated := dist0, prev0, sp0, dest0, false;
    stamp, clock := stamp0, clock0;
    var j := 0;
    while j < |edges|
      invariant PassInv(edges, src, dist0, j, dist, prev, sp, dest, updated)
      invariant Stamped(edges, src, dist, prev, stamp, clock)
      decreases |edges| - j
    {
      var e := edges[j];
      if dist[e.s] != Inf && Lt(Finite(dist[e.s].n + e.w), dist[e.d]) {
        ghost var dist1, prev1, sp1, dest1, updated1 := dist, prev, sp, dest, updated;
        StampRelax(edges, src, dist, prev, stamp, clock, j);
        dist := dist[e.d := Finite(dist[e.s].n + e.w)];
        if Lt(dist[e.d], sp) {
          sp := dist[e.d];
          dest := Some(e.d);
        }
        prev := prev[e.d := e.s];
        stamp, clock := stamp[e.d := clock], clock + 1;
        updated := true;
        PassRelaxed(edges, src, dist0, j, dist1, prev1, sp1, dest1, updated1, dist, prev, sp, dest);
      } else {
        PassSkipped(edges, src, dist0, j, dist, prev, sp, dest, updated);
      }
      j := j + 1;
    }
  }

  /** getPath, with a bound on its recursion depth: follows prev back from x until a vertex
      that is its own predecessor. */
  function PathTo(prev: seq<int>, x: int, fuel: nat): Option<seq<int>>
    requires 0 <= x < |prev|
    decreases fuel
  {
    if prev[x] == x then Some([x])
    else if fuel == 0 || !(0 <= prev[x] < |prev|) then None
    else match PathTo(prev, prev[x], fuel - 1)
      case None => None
      case Some(vs) => Some(vs + [x])
  }

  /** Once no edge relaxes, the predecessor of a vertex other than the start is another
      vertex, joined to it by an edge that agrees with both entries. */
  lemma PrevEdge(edges: seq<Edge>, src: int, dist: seq<ExtInt>, prev: seq<int>, x: int) returns (k: int)
    requires VerticesIn(edges, 0, |dist|) && Stable(edges, dist) && |prev| == |dist|
    requires 0 <= x < |dist| && dist[x].Finite? && PrevAt(edges, src, dist, prev, x)
    requires !(x == src && prev[x] == src && dist[x] == Finite(0))
    ensures 0 <= prev[x] < |dist| && prev[x] != x && dist[prev[x]].Finite?
    ensures 0 <= k < |edges| && edges[k].s == prev[x] && edges[k].d == x
    ensures dist[prev[x]].n + edges[k].w <= dist[x].n
  {
    var u := prev[x];
    assert 0 <= u < |dist| && dist[u].Finite?;
    assert u != x;
    k :| 0 <= k < |edges| && edges[k].s == u && edges[k].d == x && dist[u].n + edges[k].w <= dist[x].n;
  }

  /** Once no edge relaxes, a path getPath completes is the vertex sequence of a walk from
      src no longer than its end's entry. */
  lemma {:induction false} PathWalk(edges: seq<Edge>, src: int, dist: seq<ExtInt>, prev: seq<int>,
                                    x: int, fuel: nat)
    returns (p: seq<Edge>)
    requires VerticesIn(edges, 0, |dist|) && Stable(edges, dist) && PrevOk(edges, src, dist, prev)
    requires 0 <= x < |dist| && dist[x].Finite? && PathTo(prev, x, fuel).Some?
    ensures IsWalk(edges, p, src, x) && Visits(src, p) == PathTo(prev, x, fuel).value
    ensures Weight(p) <= dist[x].n
    decreases fuel
  {
    assert PrevAt(edges, src, dist, prev, x);
    if x == src && prev[x] == src && dist[x] == Finite(0) {
      p := [];
    } else {
      var u := prev[x];
      var k := PrevEdge(edges, src, dist, prev, x);
      var q := PathWalk(edges, src, dist, prev, u, fuel - 1);
      WalkSnoc(edges, q, src, u, edges[k]);
      VisitsSnoc(src, q, edges[k]);
      p := q + [edges[k]];
    }
  }

  /** The vertices whose entries were set before x's. */
  ghost function StampedBefore(stamp: seq<int>, x: int): set<int>
    requires 0 <= x < |stamp|
  {
    set y | 0 <= y < |stamp| && stamp[y] < stamp[x]
  }

  /** x is not among the vertices set before it, so there are fewer of them than entries. */
  lemma StampedFew(stamp: seq<int>, x: int)
    requires 0 <= x < |stamp|
    ensures |StampedBefore(stamp, x)| < |stamp|
  {
    var all := Interval(0, |stamp|);
    IntervalCard(0, |stamp|);
    Reachability.SubsetCard(StampedBefore(stamp, x), all - {x});
  }

  /** Once no edge relaxes, getPath completes from every vertex with a finite entry: each
      predecessor edge attains its end's entry, so its tail was set earlier, and the chain
      back from x reaches the start within as many steps as entries were set before x's. */
  lemma {:induction false} ChainComplete(edges: seq<Edge>, src: int, dist: seq<ExtInt>, prev: seq<int>,
                                         stamp: seq<int>, clock: int, x: int, fuel: nat)
    requires VerticesIn(edges, 0, |dist|) && Stable(edges, dist) && PrevOk(edges, src, dist, prev)
    requires Stamped(edges, src, dist, prev, stamp, clock)
    requires 0 <= x < |dist| && dist[x].Finite? && |StampedBefore(stamp, x)| <= fuel
    ensures PathTo(prev, x, fuel).Some?
    decreases fuel
  {
    assert PrevAt(edges, src, dist, prev, x);
    assert StampAt(edges, src, dist, prev, stamp, x);
    if prev[x] != x {
      var u := prev[x];
      var k :| 0 <= k < |edges| && edges[k].s == u && edges[k].d == x
        && (dist[u].n + edges[k].w < dist[x].n
            || (dist[u].n + edges[k].w == dist[x].n && stamp[u] < stamp[x]));
      assert !Relaxes(dist, edges[k]);
      assert u in StampedBefore(stamp, x);
      Reachability.SubsetCard(StampedBefore(stamp, u), StampedBefore(stamp, x) - {u});
      ChainComplete(edges, src, dist, prev, stamp, clock, u, fuel - 1);
    }
  }

  /** The passes of bellman_ford (lines 58-84): at most vertexCount - 1 of them, stopping
      early after one that changes nothing. */
  method RunPasses(edges: seq<Edge>, vertexCount: int, src: int)
    returns (table: seq<ExtInt>, prev: seq<int>, sp: ExtInt, dest: Option<int>,
             ghost stamp: seq<int>, ghost clock: int)
    requires VerticesIn(edges, 1, vertexCount + 1) && 1 <= src <= vertexCount
    ensures VerticesIn(edges, 0, vertexCount + 1)
    ensures table == Passes(edges, Initial(vertexCount + 1, src), vertexCount - 1)
    ensures PrevOk(edges, src, table, prev) && Tracked(src, table, sp, dest)
    ensures Stamped(edges, src, table, prev, stamp, clock)
  {
    var n := vertexCount + 1;
    table := seq(n, v => if v == src then Finite(0) else Inf);
    prev := seq(n, v => if v == src then src else -1);
    assert table == Initial(n, src);
    stamp, clock := seq(n, v => 0), 1;
    sp := Inf;
    dest := None;
    var updated := true;
    var i := 1;
    while updated && i < vertexCount
      invariant 1 <= i && (i <= vertexCount || i == 1) && |table| == n
      invariant Passes(edges, Initial(n, src), vertexCount - 1)
        == if updated then Passes(edges, table, vertexCount - i) else table
      invariant PrevOk(edges, src, table, prev) && Tracked(src, table, sp, dest)
      invariant Stamped(edges, src, table, prev, stamp, clock)
      decreases vertexCount - i
    {
      table, prev, sp, dest, updated, stamp, clock := RelaxPass(edges, src, table, prev, sp, dest, stamp, clock);
      i := i + 1;
    }
  }

  /** The negative cycle check (lines 89-91): true when some edge still relaxes. */
  method SomeEdgeRelaxes(edges: seq<Edge>, table: seq<ExtInt>) returns (found: bool)
    requires VerticesIn(edges, 0, |table|)
    ensures found <==> !Stable(edges, table)
  {
    var k := 0;
    while k < |edges|
      invariant 0 <= k <= |edges| && forall t :: 0 <= t < k ==> !Relaxes(table, edges[t])
    {
      var e := edges[k];
      if table[e.s] != Inf && Lt(Finite(table[e.s].n + e.w), table[e.d]) {
        return true;
      }
      k := k + 1;
    }
    return false;
  }

  /** bellman_ford(src) over vertices 1 to vertexCount (lines 55-97): the passes, the
      negative cycle check, and the path to where the least distance was attained. */
  method BellmanFordFrom(edges: seq<Edge>, vertexCount: int, src: int)
    returns (r: Outcome, ghost dist: seq<ExtInt>)
    requires VerticesIn(edges, 1, vertexCount + 1) && 1 <= src <= vertexCount
    ensures VerticesIn(edges, 0, vertexCount + 1)
    ensures dist == Passes(edges, Initial(vertexCount + 1, src), vertexCount - 1)
    ensures r.NegativeCycle? <==> !Stable(edges, dist)
    ensures r.NegativeCycle? <==> NegativeCycleFrom(edges, src)
    ensures r.Found? ==> forall v :: 0 <= v <= vertexCount ==> Shortest(edges, src, v, dist[v])
    ensures r.Found? ==> r.shortestPath == MinOther(dist, src, 1, vertexCount + 1)
    ensures r.Found? ==> LeastFrom(edges, 1, vertexCount + 1, src, r.shortestPath)
    ensures r.Found? ==> (r.path.Some? <==> r.shortestPath.Finite?)
    ensures r.Found? && r.path.Some? ==> WalkPath(edges, vertexCount, src, r.path.value, r.shortestPath)
  {
    ghost var stamp, clock;
    var table, prev, sp, dest;
    table, prev, sp, dest, stamp, clock := RunPasses(edges, vertexCount, src);
    dist := table;
    PassesCorrect(edges, 1, vertexCount + 1, src, vertexCount - 1, table);
    var relaxes := SomeEdgeRelaxes(edges, table);
    if relaxes {
      r := NegativeCycle;
      return;
    }
    r := Answer(edges, vertexCount, src, table, prev, sp, dest, stamp, clock);
  }

  /** Lines 95-97: the least distance assigned, and the path getPath builds to where it
      was attained. */
  method Answer(edges: seq<Edge>, vertexCount: int, src: int, table: seq<ExtInt>, prev: seq<int>,
                sp: ExtInt, dest: Option<int>, ghost stamp: seq<int>, ghost clock: int)
    returns (r: Outcome)
    requires VerticesIn(edges, 0, vertexCount + 1) && 1 <= src <= vertexCount
    requires |table| == vertexCount + 1 && Stable(edges, table) && !NegativeCycleFrom(edges, src)
    requires forall v :: 0 <= v <= vertexCount ==> Shortest(edges, src, v, table[v])
    requires PrevOk(edges, src, table, prev) && Tracked(src, table, sp, dest)
    requires Stamped(edges, src, table, prev, stamp, clock)
    ensures r.Found? && r.shortestPath == sp
    ensures sp == MinOther(table, src, 1, vertexCount + 1)
    ensures LeastFrom(edges, 1, vertexCount + 1, src, sp)
    ensures r.path.Some? <==> sp.Finite?
    ensures r.path.Some? ==> WalkPath(edges, vertexCount, src, r.path.value, sp)
  {
    ShortestLeast(edges, 1, vertexCount + 1, src, table);
    SpIsMin(edges, vertexCount, src, table, sp, dest);
    var path := None;
    if sp != Inf {
      StampedFew(stamp, dest.value);
      ChainComplete(edges, src, table, prev, stamp, clock, dest.value, vertexCount);
      path := PathTo(prev, dest.value, vertexCount);
      var p := PathWalk(edges, src, table, prev, dest.value, vertexCount);
      FoundPath(edges, vertexCount, src, table, sp, dest.value, p, path.value);
    }
    r := Found(sp, path);
  }

  /** Once the check passes, the tracked least entry is the least distance to another
      vertex. */
  lemma SpIsMin(edges: seq<Edge>, vertexCount: int, src: int, dist: seq<ExtInt>, sp: ExtInt,
                dest: Option<int>)
    requires |dist| == vertexCount + 1 && 1 <= src <= vertexCount
    requires Tracked(src, dist, sp, dest) && !NegativeCycleFrom(edges, src)
    requires Shortest(edges, src, src, dist[src])
    ensures sp == MinOther(dist, src, 1, vertexCount + 1)
  {
    SelfZero(edges, src, dist);
    var m := MinOther(dist, src, 1, vertexCount + 1);
    if dest.Some? {
      assert Le(m, dist[dest.value]);
    }
    if m.Finite? {
      var v :| 1 <= v < vertexCount + 1 && v != src && dist[v] == m;
      assert Le(sp, dist[v]);
    }
  }

  lemma FoundPath(edges: seq<Edge>, vertexCount: int, src: int, dist: seq<ExtInt>, sp: ExtInt,
                  x: int, p: seq<Edge>, vs: seq<int>)
    requires 1 <= x <= vertexCount && x != src && |dist| == vertexCount + 1
    requires dist[x] == sp && sp.Finite? && Below(edges, src, x, dist[x])
    requires IsWalk(edges, p, src, x) && Visits(src, p) == vs && Weight(p) <= dist[x].n
    ensures WalkPath(edges, vertexCount, src, vs, sp)
  {
    assert Le(dist[x], Finite(Weight(p)));
  }

  /** With no negative cycle through it, src's own distance stays 0. */
  lemma SelfZero(edges: seq<Edge>, src: int, dist: seq<ExtInt>)
    requires 0 <= src < |dist| && Shortest(edges, src, src, dist[src])
    requires !NegativeCycleFrom(edges, src)
    ensures dist[src] == Finite(0)
  {
    EmptyWalk(edges, src);
    if dist[src].Finite? {
      var c :| IsWalk(edges, c, src, src) && Weight(c) == dist[src].n;
      assert Weight(c) >= 0;
    }
  }

  /** vs is the vertex sequence of a walk of length m from src to another of the vertices
      1 to vertexCount. */
  ghost predicate WalkPath(edges: seq<Edge>, vertexCount: int, src: int, vs: seq<int>, m: ExtInt)
  {
    exists p, v :: 1 <= v <= vertexCount && v != src && IsWalk(edges, p, src, v)
      && Visits(src, p) == vs && m == Finite(Weight(p))
  }

  /** Every walk between distinct vertices that starts before vertex u is longer than m:
      u is the first source achieving m. */
  ghost predicate Earliest(edges: seq<Edge>, vertexCount: int, u: int, m: ExtInt)
  {
    forall t, w, q :: 1 <= t < u && 1 <= w <= vertexCount && t != w && IsWalk(edges, q, t, w) ==>
      Lt(m, Finite(Weight(q)))
  }

  /** The program object: the graph and vertex count read from the input file. */
  class BellmanFord {
    var graph: Graph
    var vertexCount: int

    constructor (vertexCount: int, graph: Graph)
      ensures this.vertexCount == vertexCount && this.graph == graph
    {
      this.vertexCount := vertexCount;
      this.graph := graph;
    }

    ghost predicate Valid()
      reads this, graph
    {
      VerticesIn(graph.edges, 1, vertexCount + 1)
    }

    method BellmanFord(src: int) returns (r: Outcome, ghost dist: seq<ExtInt>)
      requires Valid() && 1 <= src <= vertexCount
      ensures VerticesIn(graph.edges, 0, vertexCount + 1)
      ensures dist == Passes(graph.edges, Initial(vertexCount + 1, src), vertexCount - 1)
      ensures r.NegativeCycle? <==> NegativeCycleFrom(graph.edges, src)
      ensures r.Found? ==> LeastFrom(graph.edges, 1, vertexCount + 1, src, r.shortestPath)
      ensures r.Found? ==> (r.path.Some? <==> r.shortestPath.Finite?)
      ensures r.Found? && r.path.Some? ==> WalkPath(graph.edges, vertexCount, src, r.path.value, r.shortestPath)
    {
      r, dist := BellmanFordFrom(graph.edges, vertexCount, src);
    }

    method GetShortestPath() returns (r: Outcome)
      requires Valid()
      ensures r.NegativeCycle? <==> exists u :: 1 <= u <= vertexCount && NegativeCycleFrom(graph.edges, u)
      ensures r.Found? ==> LeastPair(graph.edges, 1, vertexCount + 1, vertexCount + 1, r.shortestPath)
      ensures r.Found? ==> (r.path.Some? <==> r.shortestPath.Finite?)
      ensures r.Found? && r.path.Some? ==>
        (exists u :: 1 <= u <= vertexCount && WalkPath(graph.edges, vertexCount, u, r.path.value, r.shortestPath)
           && Earliest(graph.edges, vertexCount, u, r.shortestPath))
    {
      r := ShortestOverSources(graph.edges, vertexCount);
    }
  }

  /** getShortestPath (lines 113-126): bellman_ford from every source in turn, keeping the
      first strictly smaller answer; an exception from any source propagates. */
  method ShortestOverSources(edges: seq<Edge>, vertexCount: int) returns (r: Outcome)
    requires VerticesIn(edges, 1, vertexCount + 1)
    ensures r.NegativeCycle? <==> exists u :: 1 <= u <= vertexCount && NegativeCycleFrom(edges, u)
    ensures r.Found? ==> LeastPair(edges, 1, vertexCount + 1, vertexCount + 1, r.shortestPath)
    ensures r.Found? ==> (r.path.Some? <==> r.shortestPath.Finite?)
    ensures r.Found? && r.path.Some? ==>
      (exists u :: 1 <= u <= vertexCount && WalkPath(edges, vertexCount, u, r.path.value, r.shortestPath)
         && Earliest(edges, vertexCount, u, r.shortestPath))
  {
    var best: ExtInt := Inf;
    var path: Option<seq<int>> := None;
    ghost var from := 1;
    LeastPairEmpty(edges, 1, vertexCount + 1);
    var v := 1;
    while v <= vertexCount
      invariant 1 <= v && (v <= vertexCount + 1 || v == 1)
      invariant forall u :: 1 <= u < v ==> !NegativeCycleFrom(edges, u)
      invariant LeastPair(edges, 1, v, vertexCount + 1, best)
      invariant path.Some? <==> best.Finite?
      invariant path.Some? ==>
        1 <= from < v && WalkPath(edges, vertexCount, from, path.value, best)
        && Earliest(edges, vertexCount, from, best)
    {
      ghost var table;
      var single;
      single, table := BellmanFordFrom(edges, vertexCount, v);
      if single.NegativeCycle? {
        r := NegativeCycle;
        return;
      }
      LeastPairStep(edges, 1, v, vertexCount + 1, best, single.shortestPath);
      if Lt(single.shortestPath, best) {
        EarliestAfter(edges, vertexCount, v, best, single.shortestPath);
        best := single.shortestPath;
        path := single.path;
        from := v;
      }
      v := v + 1;
    }
    r := Found(best, path);
  }

  lemma EarliestAfter(edges: seq<Edge>, vertexCount: int, v: int, best: ExtInt, m: ExtInt)
    requires LeastPair(edges, 1, v, vertexCount + 1, best) && Lt(m, best)
    ensures Earliest(edges, vertexCount, v, m)
  {
    forall t, w, q | 1 <= t < v && 1 <= w <= vertexCount && t != w && IsWalk(edges, q, t, w)
      ensures Lt(m, Finite(Weight(q)))
    {
      assert Le(best, Finite(Weight(q)));
    }
  }
}
