/** Johnson.__init__: the graph read from the input lines, then a new vertex 0 with an
    edge of length 0 to every vertex 1 to vertexCount. */
module JohnsonBuild {
  import opened Walks
  import opened VertexGraph

  /** The dictionary of edges out of u that the lines describe: a later line for the same
      pair of vertices overwrites the length an earlier one gave. */
  function Written(lines: seq<Edge>, u: int): map<int, int>
  {
    if |lines| == 0 then map[]
    else
      var l := lines[|lines| - 1];
      var m := Written(lines[..|lines| - 1], u);
      if l.s == u then m[l.d := l.w] else m
  }

  /** The dictionaries after the lines are read: only vertices 1 to vertexCount, each with
      exactly the edges the lines give it, and no edge for a vertex no line starts at. */
  ghost predicate FromFile(adj: map<int, Nbrs>, vertexCount: int, lines: seq<Edge>)
  {
    (forall u :: u in adj ==> 1 <= u <= vertexCount && AsMap(adj[u]) == Written(lines, u))
    && (forall u :: u !in adj ==> Written(lines, u) == map[])
  }

  /** The neighbour list of vertex 0: vertices 1 to n, each at length 0, in order. */
  function SourceEdges(n: nat): (r: Nbrs)
    ensures |r| == n && forall k :: 0 <= k < n ==> r[k] == (k + 1, 0)
  {
    seq(n, k => (k + 1, 0))
  }

  /** The graph __init__ builds: the vertices 0 to vertexCount (none at all when
      vertexCount is 0), vertex 0 joined to all the others, and no edge into vertex 0. */
  ghost predicate Augmented(order: seq<int>, adj: map<int, Nbrs>, vertexCount: int)
  {
    Wf(order, adj) && 0 <= vertexCount
    && (forall u :: u in adj ==> 0 <= u <= vertexCount)
    && (vertexCount >= 1 ==> (forall u :: 0 <= u <= vertexCount ==> u in adj))
    && (vertexCount >= 1 ==> adj[0] == SourceEdges(vertexCount))
    && (forall u, k :: u in adj && 0 <= k < |adj[u]| ==> adj[u][k].0 != 0)
  }

  lemma WrittenSnoc(lines: seq<Edge>, l: Edge, u: int)
    ensures Written(lines + [l], u) == if l.s == u then Written(lines, u)[l.d := l.w] else Written(lines, u)
  {
    assert (lines + [l])[..|lines|] == lines;
  }

  /** Reading one more line, with addEdge(s, d, w), keeps the dictionaries those of the
      lines read so far. */
  lemma ReadStep(adj0: map<int, Nbrs>, adj: map<int, Nbrs>, vertexCount: int, lines: seq<Edge>, l: Edge)
    requires FromFile(adj0, vertexCount, lines) && 1 <= l.s <= vertexCount && 1 <= l.d <= vertexCount
    requires forall u :: u in adj0 ==> KeysDistinct(adj0[u])
    requires adj.Keys == adj0.Keys + {l.s, l.d}
    requires adj[l.s] == SetNeighbour(if l.s in adj0 then adj0[l.s] else [], l.d, l.w)
    requires forall u :: u in adj && u != l.s ==> adj[u] == (if u in adj0 then adj0[u] else [])
    ensures FromFile(adj, vertexCount, lines + [l])
  {
    var before := if l.s in adj0 then adj0[l.s] else [];
    SetNeighbourMap(before, l.d, l.w);
    forall u ensures Written(lines + [l], u) == if l.s == u then Written(lines, u)[l.d := l.w] else Written(lines, u) {
      WrittenSnoc(lines, l, u);
    }
  }

  /** The loop over the lines of the input (lines 226-237). */
  method ReadLines(graph: Graph, vertexCount: int, lines: seq<Edge>)
    requires graph.Valid() && graph.adj == map[] && FileEdges(vertexCount, lines)
    modifies graph
    ensures graph.Valid() && FromFile(graph.adj, vertexCount, lines)
  {
    for i := 0 to |lines|
      invariant graph.Valid() && FromFile(graph.adj, vertexCount, lines[..i])
    {
      var l := lines[i];
      ghost var adj0 := graph.adj;
      graph.AddEdge(l.s, l.d, l.w);
      ReadStep(adj0, graph.adj, vertexCount, lines[..i], l);
      assert lines[..i] + [l] == lines[..i + 1];
    }
    assert lines[..|lines|] == lines;
  }

  /** Adding the edge 0 -> v after the edges to 1 to v - 1. */
  lemma SourceStep(n: nat)
    ensures SetNeighbour(SourceEdges(n), n + 1, 0) == SourceEdges(n + 1)
  {
    assert FindKey(SourceEdges(n), n + 1) == -1;
  }

  /** The dictionaries after addEdge(0, v, 0) for v from 1 to n: the vertices of adj0,
      then 0 to n, with the edges to 1 to n out of 0 and no others added. */
  ghost predicate SourcesAdded(adj0: map<int, Nbrs>, adj: map<int, Nbrs>, n: int)
  {
    (forall u :: u in adj <==> u in adj0 || (n >= 1 && 0 <= u <= n))
    && (n >= 1 ==> adj[0] == SourceEdges(n))
    && (forall u :: u in adj0 ==> adj[u] == adj0[u])
    && (forall u :: u in adj && u !in adj0 && u != 0 ==> adj[u] == [])
  }

  lemma SourceAdded(adj0: map<int, Nbrs>, adj1: map<int, Nbrs>, adj: map<int, Nbrs>, n: nat)
    requires SourcesAdded(adj0, adj1, n) && 0 !in adj0
    requires adj.Keys == adj1.Keys + {0, n + 1}
    requires adj[0] == SetNeighbour(if 0 in adj1 then adj1[0] else [], n + 1, 0)
    requires forall u :: u in adj && u != 0 ==> adj[u] == (if u in adj1 then adj1[u] else [])
    ensures SourcesAdded(adj0, adj, n + 1)
  {
    SourceStep(n);
  }

  /** The loop of lines 240-241: addEdge(0, v, 0) for v from 1 to vertexCount. */
  method AddSource(graph: Graph, vertexCount: int)
    requires graph.Valid() && 0 <= vertexCount && forall u :: u in graph.adj ==> 1 <= u <= vertexCount
    modifies graph
    ensures graph.Valid() && SourcesAdded(old(graph.adj), graph.adj, vertexCount)
  {
    for v := 1 to vertexCount + 1
      invariant graph.Valid() && SourcesAdded(old(graph.adj), graph.adj, v - 1)
    {
      ghost var adj1 := graph.adj;
      graph.AddEdge(0, v, 0);
      SourceAdded(old(graph.adj), adj1, graph.adj, v - 1);
    }
  }

  /** Both loops of __init__ leave the graph Augmented, with the lines' dictionaries on
      vertices 1 to vertexCount. */
  lemma Built(adj0: map<int, Nbrs>, order: seq<int>, adj: map<int, Nbrs>, vertexCount: int, lines: seq<Edge>)
    requires FromFile(adj0, vertexCount, lines) && Wf(order, adj) && 0 <= vertexCount
    requires forall u, k :: u in adj0 && 0 <= k < |adj0[u]| ==> adj0[u][k].0 in adj0
    requires SourcesAdded(adj0, adj, vertexCount)
    ensures Augmented(order, adj, vertexCount)
    ensures forall u :: 1 <= u <= vertexCount ==> u in adj && AsMap(adj[u]) == Written(lines, u)
  {
    forall u, k | u in adj && 0 <= k < |adj[u]| ensures adj[u][k].0 != 0 {
      if u != 0 {
        assert adj[u][k].0 in adj0;
      }
    }
  }
}
