/** The Johnson program: the graph with its extra vertex 0, bellman_ford from 0, the
    reweighting, and dijkstra from every vertex 1 to vertexCount, keeping the shortest of
    all the shortest paths. */
module Johnson {
  import opened Wrappers
  import opened ExtInt
  import opened Walks
  import opened VertexGraph
  import opened Reweighting
  import opened JohnsonSearch
  import opened JohnsonBuild
  import opened JohnsonBellmanFord
  import opened JohnsonDijkstra
  import opened JohnsonAnswers
  import DM = DijkstraMinHeap
  import BF = AllPairsBellmanFord

  /** The loop of lines 350-358: dijkstra from every vertex 1 to vertexCount over the
      reweighted graph, keeping an answer only when it is strictly shorter. */
  method AllSources(order: seq<int>, adj: map<int, Nbrs>, vertexCount: int, weights: seq<int>, ghost E0: seq<Edge>)
    returns (shortestPath: ExtInt, path: Option<seq<int>>)
    requires Wf(order, adj) && (vertexCount >= 1 ==> OnVertices(order, adj, vertexCount + 1))
    requires 0 <= vertexCount && DM.NonNegativeWeights(adj) && |weights| == vertexCount + 1
    requires ReweightOf(E0, weights, Edges(order, adj))
    ensures ShortestShortest(E0, vertexCount, shortestPath, path)
  {
    shortestPath := Inf;
    path := None;
    ghost var from := 1;
    NoneYet(E0, vertexCount);
    for vertex := 1 to vertexCount + 1
      invariant BestSoFar(E0, vertexCount, vertex, shortestPath, path, from)
    {
      var single, singlePath := Dijkstra(order, adj, vertexCount, vertex, weights, E0);
      KeepBest(E0, vertexCount, vertex, shortestPath, path, from, single, singlePath);
      if Lt(single, shortestPath) {
        shortestPath, path, from := single, singlePath, vertex;
      }
    }
    Best(E0, vertexCount, shortestPath, path, from);
  }

  /** Lines 348-361 once bellman_ford has returned its distances from 0: updateEdges with
      them, then the search from every vertex. */
  method ReweightAndSearch(graph: Graph, vertexCount: int, dist: seq<ExtInt>, ghost E0: seq<Edge>)
    returns (r: BF.Outcome)
    requires graph.Valid() && Augmented(graph.order, graph.adj, vertexCount)
    requires E0 == Edges(graph.order, graph.adj) && Distances(E0, 0, vertexCount, dist)
    modifies graph
    ensures r.Found? && ShortestShortest(E0, vertexCount, r.shortestPath, r.path)
  {
    Reweighable(graph.order, graph.adj, vertexCount, dist);
    var weights := Potentials(dist);
    graph.UpdateEdges(weights);
    var shortestPath, path := AllSources(graph.order, graph.adj, vertexCount, weights, E0);
    r := BF.Found(shortestPath, path);
  }

  /** The program object: the graph read from the input, with vertex 0 added. */
  class Johnson {
    var graph: Graph
    var vertexCount: int

    ghost predicate Valid()
      reads this, graph
    {
      graph.Valid() && Augmented(graph.order, graph.adj, vertexCount)
    }

    /** __init__ (lines 219-241), with the input file's first number and its lines given
        as parameters. */
    constructor (vertexCount: int, lines: seq<Edge>)
      requires 0 <= vertexCount && FileEdges(vertexCount, lines)
      ensures Valid() && this.vertexCount == vertexCount
      ensures forall u :: 1 <= u <= vertexCount ==> u in graph.adj && AsMap(graph.adj[u]) == Written(lines, u)
    {
      var g := new Graph();
      ReadLines(g, vertexCount, lines);
      ghost var adj0 := g.adj;
      AddSource(g, vertexCount);
      Built(adj0, g.order, g.adj, vertexCount, lines);
      graph := g;
      this.vertexCount := vertexCount;
    }

    /** getShortestPath as written (lines 340-361): it stops with the exception of
        bellman_ford on every graph with a negative closed walk, and otherwise returns the
        shortest shortest path; it may also stop on a graph without one (TooFewPasses). */
    method GetShortestPath() returns (r: BF.Outcome)
      requires Valid()
      modifies graph
      ensures var E := Edges(old(graph.order), old(graph.adj));
        && ((exists u :: 1 <= u <= vertexCount && NegativeCycleFrom(E, u)) ==> r.NegativeCycle?)
        && (r.Found? ==> ShortestShortest(E, vertexCount, r.shortestPath, r.path))
    {
      ghost var E := Edges(graph.order, graph.adj);
      CycleFromSource(graph.order, graph.adj, vertexCount);
      AugmentedIn(graph.order, graph.adj, vertexCount);
      var edges := graph.GetEdges();
      var weights := BellmanFord(edges, vertexCount, 0);
      if weights.Failure? {
        return BF.NegativeCycle;
      }
      r := ReweightAndSearch(graph, vertexCount, weights.value, E);
    }

    /** getShortestPath over the corrected bellman_ford: it stops exactly on the graphs
        with a negative closed walk. */
    method GetShortestPathFixed() returns (r: BF.Outcome)
      requires Valid()
      modifies graph
      ensures var E := Edges(old(graph.order), old(graph.adj));
        && (r.NegativeCycle? <==> exists u :: 1 <= u <= vertexCount && NegativeCycleFrom(E, u))
        && (r.Found? ==> ShortestShortest(E, vertexCount, r.shortestPath, r.path))
    {
      ghost var E := Edges(graph.order, graph.adj);
      CycleFromSource(graph.order, graph.adj, vertexCount);
      AugmentedIn(graph.order, graph.adj, vertexCount);
      var edges := graph.GetEdges();
      var weights := BellmanFordFixed(edges, vertexCount, 0);
      if weights.Failure? {
        return BF.NegativeCycle;
      }
      r := ReweightAndSearch(graph, vertexCount, weights.value, E);
    }
  }
}
