/** Dijkstra's single-source shortest paths over the indexed heap
    (dijkstra-minHeap.py): the Solution object, its graph and its distance dictionary. */
module DijkstraMinHeap {
  import opened Wrappers
  import opened ExtInt
  import opened Walks
  import opened IndexedHeap
  import opened VertexGraph
  import opened DijkstraSearch

  /** The exception shortest_path raises: getVertex(start) on a missing id. */
  datatype Error = KeyError(key: int)

  /** Every edge length is at least 0, which Dijkstra's loop needs. */
  ghost predicate NonNegativeWeights(adj: map<int, Nbrs>)
  {
    forall u, k :: u in adj && 0 <= k < |adj[u]| ==> adj[u][k].1 >= 0
  }

  /** MinHeap.insert as this file writes it: the entry is appended and sifted up, but its
      vertex is never given a position. */
  function InsertAsWritten(h: seq<Entry>, pos: map<int, int>, v: int, d: ExtInt): (r: (seq<Entry>, map<int, int>))
    requires |h| >= 1
    ensures |r.0| == |h| + 1 && Contents(r.0) == Contents(h) + multiset{Entry(v, d)}
  {
    SiftUpContents(h + [Entry(v, d)], pos, |h|);
    assert (h + [Entry(v, d)])[1..] == h[1..] + [Entry(v, d)];
    SiftUp(h + [Entry(v, d)], pos, |h|)
  }

  /** Inserting vertex 7 with key 5 into the empty heap leaves 7 without a position, so
      a later changeDistance(7, ...) fails; InsertSpec shows the corrected insert keeps
      every position. */
  lemma InsertAsWrittenLosesPosition()
    ensures PosOk([Placeholder], map[])
    ensures !PosOk(InsertAsWritten([Placeholder], map[], 7, Finite(5)).0,
                   InsertAsWritten([Placeholder], map[], 7, Finite(5)).1)
  {
    var r := InsertAsWritten([Placeholder], map[], 7, Finite(5));
    assert [Placeholder] + [Entry(7, Finite(5))] == [Placeholder, Entry(7, Finite(5))];
    assert SiftUp([Placeholder, Entry(7, Finite(5))], map[], 1) == ([Placeholder, Entry(7, Finite(5))], map[]);
    assert r == ([Placeholder, Entry(7, Finite(5))], map[]);
    assert r.0[1].v !in r.1;
  }

  /** The graph Dijkstra searches is the one the dictionaries describe. */
  lemma GraphSearched(order: seq<int>, adj: map<int, Nbrs>, src: int)
    requires Wf(order, adj) && NonNegativeWeights(adj) && src in adj
    ensures SearchGraph(Edges(order, adj), adj, src)
  {
    var E := Edges(order, adj);
    EdgesMember(order, adj);
    forall i | 0 <= i < |E| ensures E[i].w >= 0 {
      var e := E[i];
      assert e in E;
      var k :| 0 <= k < |adj[e.s]| && adj[e.s][k] == (e.d, e.w);
    }
  }

  /** The heap after initInsert(vertex, inf, i) for the vertices in order, i counting from
      1: positions match indices, every key is inf, every vertex is in it. */
  lemma InitialHeap(order: seq<int>, adj: map<int, Nbrs>, h: seq<Entry>, pos: map<int, int>)
    requires Wf(order, adj) && |h| == |order| + 1
    requires forall m :: 0 <= m < |order| ==> h[m + 1] == Entry(order[m], Inf) && order[m] in pos && pos[order[m]] == m + 1
    ensures PosOk(h, pos)
    ensures forall k :: 1 <= k < |h| ==> h[k].key == Inf && h[k].v in adj
    ensures VertsOf(Contents(h)) == adj.Keys
  {
    forall k | 1 <= k < |h| ensures h[k].v in pos && pos[h[k].v] == k && h[k].key == Inf && h[k].v in adj {
      assert h[(k - 1) + 1] == Entry(order[k - 1], Inf);
    }
    forall v | v in adj ensures v in VertsOf(Contents(h)) {
      var m :| 0 <= m < |order| && order[m] == v;
      assert h[1..][m] == h[m + 1];
    }
    forall v | v in VertsOf(Contents(h)) ensures v in adj {
      var e :| e in Contents(h) && e.v == v;
      var k :| 0 <= k < |h[1..]| && h[1..][k] == e;
      assert h[k + 1] == e;
    }
  }

  /** The loop of initInsert(vertex, inf, i), i counting from 1, that also sets every
      distance to inf. */
  method InitialEntries(order: seq<int>, adj: map<int, Nbrs>, dist0: map<int, ExtInt>)
    returns (minHeap: MinHeap, dist: map<int, ExtInt>)
    requires Wf(order, adj)
    ensures fresh(minHeap) && minHeap.Sized()
    ensures PosOk(minHeap.heapList, minHeap.pos)
    ensures forall k :: 1 <= k < |minHeap.heapList| ==> minHeap.heapList[k].key == Inf && minHeap.heapList[k].v in adj
    ensures VertsOf(Contents(minHeap.heapList)) == adj.Keys
    ensures adj.Keys <= dist.Keys && forall v :: v in adj ==> dist[v] == Inf
    ensures forall v :: v in dist0 && v !in adj ==> v in dist && dist[v] == dist0[v]
  {
    minHeap := new MinHeap();
    dist := dist0;
    var i := 1;
    for k := 0 to |order|
      invariant i == k + 1
      invariant minHeap.currentSize == k && |minHeap.heapList| == k + 1 && minHeap.heapList[0] == Placeholder
      invariant forall m :: 0 <= m < k ==> (minHeap.heapList[m + 1] == Entry(order[m], Inf)
        && order[m] in minHeap.pos && minHeap.pos[order[m]] == m + 1)
      invariant forall m :: 0 <= m < k ==> order[m] in dist && dist[order[m]] == Inf
      invariant forall v :: v in dist0 && v !in adj ==> v in dist && dist[v] == dist0[v]
    {
      dist := dist[order[k] := Inf];
      minHeap.InitInsert(order[k], Inf, i);
      i := i + 1;
    }
    InitialHeap(order, adj, minHeap.heapList, minHeap.pos);
    forall v | v in adj ensures v in dist && dist[v] == Inf {
      var m :| 0 <= m < |order| && order[m] == v;
    }
  }

  /** for nbr, weight in v.connectedTo.items(): relax every edge out of v, extracted with
      key dis. */
  method RelaxAll(ghost E: seq<Edge>, adj: map<int, Nbrs>, start: int, minHeap: MinHeap, v: int,
                  dis: ExtInt, dist0: map<int, ExtInt>, ghost S: set<int>)
    returns (dist: map<int, ExtInt>)
    requires SearchGraph(E, adj, start) && v in adj && minHeap.Sized()
    requires Mid(E, adj, start, v, 0, minHeap.heapList, minHeap.pos, dist0, S, dis)
    modifies minHeap
    ensures minHeap.Sized() && minHeap.currentSize == old(minHeap.currentSize)
    ensures Inv(E, adj, start, minHeap.heapList, minHeap.pos, dist, S, dis)
    ensures forall x :: x in dist0 && x !in adj ==> x in dist && dist[x] == dist0[x]
  {
    dist := dist0;
    var nbrs := adj[v];
    for j := 0 to |nbrs|
      invariant minHeap.Sized() && minHeap.currentSize == old(minHeap.currentSize)
      invariant Mid(E, adj, start, v, j, minHeap.heapList, minHeap.pos, dist, S, dis)
      invariant forall x :: x in dist0 && x !in adj ==> x in dist && dist[x] == dist0[x]
    {
      var (nbr, weight) := nbrs[j];
      var newDis := Add(dis, Finite(weight));
      if Lt(newDis, dist[nbr]) {
        RelaxFires(E, adj, start, v, j, minHeap.heapList, minHeap.pos, dist, S, dis);
        dist := dist[nbr := newDis];
        minHeap.ChangeDistance(nbr, newDis);
      } else {
        RelaxSkips(E, adj, start, v, j, minHeap.heapList, minHeap.pos, dist, S, dis);
      }
    }
    Relaxed(E, adj, start, v, minHeap.heapList, minHeap.pos, dist, S, dis);
  }

  /** while minHeap.currentSize: extract the vertex of least key and relax its edges. */
  method Search(ghost E: seq<Edge>, adj: map<int, Nbrs>, start: int, minHeap: MinHeap, dist0: map<int, ExtInt>)
    returns (dist: map<int, ExtInt>)
    requires SearchGraph(E, adj, start) && minHeap.Sized()
    requires Inv(E, adj, start, minHeap.heapList, minHeap.pos, dist0, {}, Finite(0))
    modifies minHeap
    ensures forall v :: v in adj ==> v in dist && Shortest(E, start, v, dist[v])
    ensures forall x :: x in dist0 && x !in adj ==> x in dist && dist[x] == dist0[x]
  {
    dist := dist0;
    ghost var S: set<int> := {};
    ghost var last := Finite(0);
    while minHeap.currentSize != 0
      invariant minHeap.Sized() && Inv(E, adj, start, minHeap.heapList, minHeap.pos, dist, S, last)
      invariant forall x :: x in dist0 && x !in adj ==> x in dist && dist[x] == dist0[x]
      decreases minHeap.currentSize
    {
      Extract(E, adj, start, minHeap.heapList, minHeap.pos, dist, S, last);
      var entry := minHeap.DelMin();
      var v, dis := entry.v, entry.key;
      S, last := S + {v}, dis;
      dist := RelaxAll(E, adj, start, minHeap, v, dis, dist, S);
    }
    Done(E, adj, start, minHeap.heapList, minHeap.pos, dist, S, last);
  }

  /** The body of shortest_path on the graph's dictionaries and the distances so far. */
  method Run(order: seq<int>, adj: map<int, Nbrs>, start: int, dist0: map<int, ExtInt>)
    returns (r: Result<map<int, ExtInt>, Error>, dist: map<int, ExtInt>)
    requires Wf(order, adj) && NonNegativeWeights(adj)
    ensures r.Failure? <==> start !in adj
    ensures r.Failure? ==> (r.error == KeyError(start)
      && forall v :: v in adj ==> v in dist && dist[v] == Inf)
    ensures r.Success? ==> (r.value == dist
      && forall v :: v in adj ==> v in dist && Shortest(Edges(order, adj), start, v, dist[v]))
    ensures forall v :: v in dist0 && v !in adj ==> v in dist && dist[v] == dist0[v]
  {
    var minHeap;
    minHeap, dist := InitialEntries(order, adj, dist0);
    if start !in adj {
      return Failure(KeyError(start)), dist;
    }
    ghost var E := Edges(order, adj);
    GraphSearched(order, adj, start);
    Initial(E, adj, start, minHeap.heapList, minHeap.pos, dist);
    dist := dist[start := Finite(0)];
    minHeap.ChangeDistance(start, Finite(0));
    dist := Search(E, adj, start, minHeap, dist);
    r := Success(dist);
  }

  class Solution {
    var graph: Graph
    var distances: map<int, ExtInt>

    constructor()
      ensures fresh(graph) && graph.order == [] && graph.adj == map[] && graph.Valid()
      ensures distances == map[]
    {
      graph := new Graph();
      distances := map[];
    }

    /** shortest_path(start): every vertex of the graph gets the length of a shortest walk
        from start, or inf when it cannot be reached. A start that is not a vertex raises
        KeyError once every distance has been reset to inf. */
    method ShortestPath(start: int) returns (r: Result<map<int, ExtInt>, Error>)
      requires graph.Valid() && NonNegativeWeights(graph.adj)
      modifies this
      ensures graph == old(graph)
      ensures r.Failure? <==> start !in graph.adj
      ensures r.Failure? ==> (r.error == KeyError(start)
        && forall v :: v in graph.adj ==> v in distances && distances[v] == Inf)
      ensures r.Success? ==> (r.value == distances
        && forall v :: v in graph.adj ==> v in distances && Shortest(Edges(graph.order, graph.adj), start, v, distances[v]))
      ensures forall v :: v in old(distances) && v !in graph.adj ==> v in distances && distances[v] == old(distances)[v]
    {
      var dist;
      r, dist := Run(graph.order, graph.adj, start, distances);
      distances := dist;
    }
  }
}
