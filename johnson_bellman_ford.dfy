/** bellman_ford(src) of the Johnson program: passes over the edge list from the new
    vertex 0, stopping early after a pass that changes nothing, then one more sweep that
    raises when an edge still relaxes; and the potentials its distances give. */
module JohnsonBellmanFord {
  import opened Wrappers
  import opened ExtInt
  import opened Walks
  import opened Relaxation
  import opened VertexGraph
  import opened Reweighting
  import opened JohnsonBuild
  import opened JohnsonSearch
  import DS = DijkstraSearch
  import DM = DijkstraMinHeap
  import BF = AllPairsBellmanFord

  /** The exception bellman_ford raises. */
  datatype Error = NegativeWeightCycle

  /** The number of passes a loop `while updated and i < limit`, with i counting from 1,
      makes at most. */
  function PassLimit(limit: int): (k: nat)
    ensures limit >= 1 ==> k == limit - 1
  {
    if limit > 1 then limit - 1 else 0
  }

  /** dist holds the shortest distance from src to every vertex 0 to vertexCount. */
  ghost predicate Distances(edges: seq<Edge>, src: int, vertexCount: int, dist: seq<ExtInt>)
  {
    |dist| == vertexCount + 1 && forall v :: 0 <= v <= vertexCount ==> Shortest(edges, src, v, dist[v])
  }

  /** One pass of lines 260-264: every edge in turn relaxes its end, and the flag records
      whether any did. */
  method RelaxEdges(edges: seq<Edge>, dist0: seq<ExtInt>) returns (dist: seq<ExtInt>, updated: bool)
    requires VerticesIn(edges, 0, |dist0|)
    ensures dist == Pass(edges, dist0) && (updated <==> dist != dist0)
  {
    dist, updated := dist0, false;
    ghost var w := 0;
    for j := 0 to |edges|
      invariant dist == Sweep(edges, dist0, j) && LeAll(dist, dist0)
      invariant !updated ==> dist == dist0
      invariant updated ==> 0 <= w < |dist0| && Lt(dist[w], dist0[w])
    {
      var e := edges[j];
      if dist[e.s] != Inf && Lt(Finite(dist[e.s].n + e.w), dist[e.d]) {
        dist := dist[e.d := Finite(dist[e.s].n + e.w)];
        updated := true;
        w := e.d;
      }
    }
  }

  /** The loop of lines 247-266 with the bound `i < limit`: the distances from src after
      at most limit - 1 passes. */
  method RunPasses(edges: seq<Edge>, n: nat, src: int, limit: int) returns (dist: seq<ExtInt>)
    requires VerticesIn(edges, 0, n) && 0 <= src < n
    ensures dist == Passes(edges, Initial(n, src), PassLimit(limit))
  {
    dist := seq(n, _ => Inf);
    dist := dist[src := Finite(0)];
    assert dist == Initial(n, src);
    var updated := true;
    var i := 1;
    while updated && i < limit
      invariant 1 <= i && (i <= limit || i == 1) && |dist| == n
      invariant Passes(edges, Initial(n, src), PassLimit(limit))
        == if updated then Passes(edges, dist, PassLimit(limit) - (i - 1)) else dist
      decreases limit - i
    {
      dist, updated := RelaxEdges(edges, dist);
      i := i + 1;
    }
  }

  /** Whatever the number of passes, a table in which no edge relaxes holds the shortest
      distances, and no negative closed walk is reachable. */
  lemma StablePasses(edges: seq<Edge>, n: nat, src: int, k: nat, d: seq<ExtInt>)
    requires VerticesIn(edges, 0, n) && 0 <= src < n && d == Passes(edges, Initial(n, src), k)
    requires Stable(edges, d)
    ensures forall v :: 0 <= v < n ==> Shortest(edges, src, v, d[v])
    ensures !NegativeCycleFrom(edges, src)
  {
    InitialBounds(edges, n, src);
    PassesSound(edges, src, Initial(n, src), k);
    assert Le(d[src], Finite(0));
    StableBelow(edges, src, d);
    StableNoNegativeCycle(edges, src, d);
  }

  /** bellman_ford(src) as written (lines 244-276): at most vertexCount - 1 passes over the
      vertexCount + 1 vertices 0 to vertexCount, then the check. It raises on every
      negative closed walk reachable from src, and returns the shortest distances when it
      does not raise, but it may raise without one (TooFewPasses). */
  method BellmanFord(edges: seq<Edge>, vertexCount: int, src: int) returns (r: Result<seq<ExtInt>, Error>)
    requires VerticesIn(edges, 0, vertexCount + 1) && 0 <= src <= vertexCount
    ensures r.Failure? <==> !Stable(edges, Passes(edges, Initial(vertexCount + 1, src), PassLimit(vertexCount)))
    ensures NegativeCycleFrom(edges, src) ==> r.Failure?
    ensures r.Success? ==> Distances(edges, src, vertexCount, r.value)
  {
    var dist := RunPasses(edges, vertexCount + 1, src, vertexCount);
    var relaxes := BF.SomeEdgeRelaxes(edges, dist);
    if relaxes {
      return Failure(NegativeWeightCycle);
    }
    StablePasses(edges, vertexCount + 1, src, PassLimit(vertexCount), dist);
    r := Success(dist);
  }

  /** bellman_ford(src) with the loop bound `i < vertexCount + 1`: one pass for every
      vertex but src, so that it raises exactly when a negative closed walk is reachable
      from src. */
  method BellmanFordFixed(edges: seq<Edge>, vertexCount: int, src: int) returns (r: Result<seq<ExtInt>, Error>)
    requires VerticesIn(edges, 0, vertexCount + 1) && 0 <= src <= vertexCount
    ensures r.Failure? <==> NegativeCycleFrom(edges, src)
    ensures r.Success? ==> Distances(edges, src, vertexCount, r.value)
  {
    var dist := RunPasses(edges, vertexCount + 1, src, vertexCount + 1);
    PassesCorrect(edges, 0, vertexCount + 1, src, vertexCount, dist);
    var relaxes := BF.SomeEdgeRelaxes(edges, dist);
    if relaxes {
      return Failure(NegativeWeightCycle);
    }
    r := Success(dist);
  }

  /** With vertexCount 1 and no input line the graph is the single edge 0 -> 1 of length 0.
      No negative closed walk exists, yet bellman_ford as written makes no pass at all and
      its check finds that edge still relaxing, so it raises. */
  lemma TooFewPasses()
    ensures var order, adj := [0, 1], map[0 := [(1, 0)], 1 := []];
      var E := Edges(order, adj);
      && Augmented(order, adj, 1) && E == [Edge(0, 1, 0)]
      && !NegativeCycleFrom(E, 0)
      && !Stable(E, Passes(E, Initial(2, 0), PassLimit(1)))
  {
    var order, adj := [0, 1], map[0 := [(1, 0)], 1 := []];
    var E := Edges(order, adj);
    assert Edges([0], adj) == [Edge(0, 1, 0)];
    assert E == [Edge(0, 1, 0)];
    forall p, c, x | IsWalk(E, p, 0, x) && IsWalk(E, c, x, x) ensures Weight(c) >= 0 {
      DS.WeightNonNegative(E, c);
    }
    assert Relaxes(Initial(2, 0), E[0]);
  }

  /** Every edge of the graph __init__ builds ends at one of the vertices 1 to
      vertexCount. */
  lemma EdgeInto(order: seq<int>, adj: map<int, Nbrs>, vertexCount: int, e: Edge)
    requires Augmented(order, adj, vertexCount) && e in Edges(order, adj)
    ensures 0 <= e.s <= vertexCount && 1 <= e.d <= vertexCount
  {
    EdgesMember(order, adj);
    var k :| 0 <= k < |adj[e.s]| && adj[e.s][k] == (e.d, e.w);
  }

  /** The edge 0 -> u of length 0, for every vertex u from 1 to vertexCount. */
  lemma EdgeFromSource(order: seq<int>, adj: map<int, Nbrs>, vertexCount: int, u: int)
    requires Augmented(order, adj, vertexCount) && 1 <= u <= vertexCount
    ensures Edge(0, u, 0) in Edges(order, adj)
  {
    EdgesMember(order, adj);
    assert adj[0][u - 1] == (u, 0);
  }

  lemma CycleToVertex(order: seq<int>, adj: map<int, Nbrs>, vertexCount: int)
    requires Augmented(order, adj, vertexCount) && NegativeCycleFrom(Edges(order, adj), 0)
    ensures exists u :: 1 <= u <= vertexCount && NegativeCycleFrom(Edges(order, adj), u)
  {
    var E := Edges(order, adj);
    var p, c, x :| IsWalk(E, p, 0, x) && IsWalk(E, c, x, x) && Weight(c) < 0;
    assert c != [];
    var e := c[|c| - 1];
    assert e in E && e.d == x;
    EdgeInto(order, adj, vertexCount, e);
    EmptyWalk(E, x);
    assert NegativeCycleFrom(E, x);
  }

  lemma CycleFromVertex(order: seq<int>, adj: map<int, Nbrs>, vertexCount: int, u: int)
    requires Augmented(order, adj, vertexCount) && 1 <= u <= vertexCount
    requires NegativeCycleFrom(Edges(order, adj), u)
    ensures NegativeCycleFrom(Edges(order, adj), 0)
  {
    var E := Edges(order, adj);
    var p, c, x :| IsWalk(E, p, u, x) && IsWalk(E, c, x, x) && Weight(c) < 0;
    var e := Edge(0, u, 0);
    EdgeFromSource(order, adj, vertexCount, u);
    EmptyWalk(E, 0);
    WalkSnoc(E, [], 0, 0, e);
    WalkConcat(E, [e], p, 0, u, x);
  }

  /** No edge enters 0 and 0 has an edge to every other vertex: a negative closed walk is
      reachable from 0 exactly when one is reachable from one of the vertices 1 to
      vertexCount. */
  lemma CycleFromSource(order: seq<int>, adj: map<int, Nbrs>, vertexCount: int)
    requires Augmented(order, adj, vertexCount)
    ensures var E := Edges(order, adj);
      NegativeCycleFrom(E, 0) <==> exists u :: 1 <= u <= vertexCount && NegativeCycleFrom(E, u)
  {
    if NegativeCycleFrom(Edges(order, adj), 0) {
      CycleToVertex(order, adj, vertexCount);
    }
    forall u | 1 <= u <= vertexCount && NegativeCycleFrom(Edges(order, adj), u)
      ensures NegativeCycleFrom(Edges(order, adj), 0)
    {
      CycleFromVertex(order, adj, vertexCount, u);
    }
  }

  /** Once bellman_ford from 0 returns, every distance is finite: each vertex is one edge
      of length 0 away from 0. */
  lemma PotentialsFinite(order: seq<int>, adj: map<int, Nbrs>, vertexCount: int, dist: seq<ExtInt>)
    requires Augmented(order, adj, vertexCount) && Distances(Edges(order, adj), 0, vertexCount, dist)
    ensures forall v :: 0 <= v < |dist| ==> dist[v].Finite?
  {
    var E := Edges(order, adj);
    forall v | 0 <= v < |dist| ensures dist[v].Finite? {
      EmptyWalk(E, 0);
      if v == 0 {
        assert Le(dist[0], Finite(Weight([])));
      } else {
        var e := Edge(0, v, 0);
        EdgeFromSource(order, adj, vertexCount, v);
        WalkSnoc(E, [], 0, 0, e);
        assert Le(dist[v], Finite(Weight([e])));
      }
    }
  }

  /** Shortest distances leave no edge to relax. */
  lemma DistancesStable(E: seq<Edge>, vertexCount: int, dist: seq<ExtInt>)
    requires VerticesIn(E, 0, vertexCount + 1) && Distances(E, 0, vertexCount, dist)
    ensures Stable(E, dist)
  {
    forall i | 0 <= i < |E| ensures !Relaxes(dist, E[i]) {
      var e := E[i];
      if dist[e.s].Finite? {
        var p :| IsWalk(E, p, 0, e.s) && Weight(p) == dist[e.s].n;
        WalkSnoc(E, p, 0, e.s, e);
        assert Le(dist[e.d], Finite(Weight(p + [e])));
      }
    }
  }

  /** The graph __init__ builds has its vertices among 0 to vertexCount. */
  lemma AugmentedIn(order: seq<int>, adj: map<int, Nbrs>, vertexCount: int)
    requires Augmented(order, adj, vertexCount)
    ensures VerticesIn(Edges(order, adj), 0, vertexCount + 1) && IdsBelow(adj, vertexCount + 1)
  {
    forall i | 0 <= i < |Edges(order, adj)| ensures 0 <= Edges(order, adj)[i].s <= vertexCount
      && 0 <= Edges(order, adj)[i].d <= vertexCount
    {
      EdgeInto(order, adj, vertexCount, Edges(order, adj)[i]);
    }
  }

  /** Reweighting by bellman_ford's distances from 0 (updateEdges, line 348) leaves the
      graph on the same vertices, every edge length at least 0, and the edge list that of
      the graph, reweighted. */
  lemma Reweighable(order: seq<int>, adj: map<int, Nbrs>, vertexCount: int, dist: seq<ExtInt>)
    requires Augmented(order, adj, vertexCount) && Distances(Edges(order, adj), 0, vertexCount, dist)
    ensures forall v :: 0 <= v < |dist| ==> dist[v].Finite?
    ensures IdsBelow(adj, |dist|)
    ensures var h := Potentials(dist);
      && ReweightOf(Edges(order, adj), h, Edges(order, Reweighted(adj, h)))
      && DM.NonNegativeWeights(Reweighted(adj, h))
      && (vertexCount >= 1 ==> OnVertices(order, Reweighted(adj, h), vertexCount + 1))
  {
    var E := Edges(order, adj);
    PotentialsFinite(order, adj, vertexCount, dist);
    AugmentedIn(order, adj, vertexCount);
    var h := Potentials(dist);
    ReweightedEdges(order, adj, h);
    WfReweighted(order, adj, h);
    DistancesStable(E, vertexCount, dist);
    ReweightedNonNegative(E, dist);
    NonNegativeAdj(order, adj, h);
  }

  /** Every edge of the list at length at least 0 puts every dictionary entry at length at
      least 0. */
  lemma NonNegativeAdj(order: seq<int>, adj: map<int, Nbrs>, h: seq<int>)
    requires Wf(order, adj) && IdsBelow(adj, |h|) && VerticesIn(Edges(order, adj), 0, |h|)
    requires forall i :: 0 <= i < |Edges(order, adj)| ==> ReweightEdge(Edges(order, adj)[i], h).w >= 0
    ensures DM.NonNegativeWeights(Reweighted(adj, h))
  {
    var E := Edges(order, adj);
    EdgesMember(order, adj);
    var adj': map<int, Nbrs> := Reweighted(adj, h);
    forall u: int, k: int | u in adj' && 0 <= k < |adj'[u]| ensures adj'[u][k].1 >= 0 {
      var e := Edge(u, adj[u][k].0, adj[u][k].1);
      assert e in E;
      var i :| 0 <= i < |E| && E[i] == e;
      assert ReweightEdge(E[i], h).w >= 0;
    }
  }
}
