/** dijkstra(src, weights) of the Johnson program: a heap search over the reweighted
    dictionaries that records each vertex's predecessor, then the distances taken back to
    the original lengths, the nearest other vertex, and the path to it. */
module JohnsonDijkstra {
  import opened Wrappers
  import opened ExtInt
  import opened Walks
  import opened Relaxation
  import opened IndexedHeap
  import opened VertexGraph
  import opened DijkstraSearch
  import opened Reweighting
  import opened JohnsonSearch
  import BF = AllPairsBellmanFord
  import DM = DijkstraMinHeap

  /** The initInsert loop (lines 283-286): every vertex in insertion order with key inf. */
  method FillHeap(order: seq<int>, adj: map<int, Nbrs>) returns (minHeap: MinHeap)
    requires Wf(order, adj)
    ensures fresh(minHeap) && minHeap.Sized() && PosOk(minHeap.heapList, minHeap.pos)
    ensures forall k :: 1 <= k < |minHeap.heapList| ==> minHeap.heapList[k].key == Inf && minHeap.heapList[k].v in adj
    ensures VertsOf(Contents(minHeap.heapList)) == adj.Keys
  {
    minHeap := new MinHeap();
    var i := 1;
    for k := 0 to |order|
      invariant i == k + 1
      invariant minHeap.currentSize == k && |minHeap.heapList| == k + 1 && minHeap.heapList[0] == Placeholder
      invariant forall m :: 0 <= m < k ==> (minHeap.heapList[m + 1] == Entry(order[m], Inf)
        && order[m] in minHeap.pos && minHeap.pos[order[m]] == m + 1)
    {
      minHeap.InitInsert(order[k], Inf, i);
      i := i + 1;
    }
    DM.InitialHeap(order, adj, minHeap.heapList, minHeap.pos);
  }

  /** The loop over v.connectedTo (lines 301-309): lower the distance, the heap key and the
      predecessor of every neighbour that v's key plus the edge length improves. */
  method RelaxOut(ghost E: seq<Edge>, adj: map<int, Nbrs>, src: int, minHeap: MinHeap, v: int,
                  dis: ExtInt, d0: seq<ExtInt>, prev0: seq<int>, ghost S: set<int>, ghost rank: map<int, int>)
    returns (d: seq<ExtInt>, prev: seq<int>)
    requires SearchGraph(E, adj, src) && v in adj && minHeap.Sized()
    requires Mid(E, adj, src, v, 0, minHeap.heapList, minHeap.pos, Table(d0), S, dis)
    requires Tree(E, src, d0, prev0, S, rank)
    modifies minHeap
    ensures minHeap.Sized() && minHeap.currentSize == old(minHeap.currentSize) && |d| == |d0|
    ensures Inv(E, adj, src, minHeap.heapList, minHeap.pos, Table(d), S, dis)
    ensures Tree(E, src, d, prev, S, rank)
  {
    d, prev := d0, prev0;
    var nbrs := adj[v];
    for j := 0 to |nbrs|
      invariant minHeap.Sized() && minHeap.currentSize == old(minHeap.currentSize) && |d| == |d0|
      invariant Mid(E, adj, src, v, j, minHeap.heapList, minHeap.pos, Table(d), S, dis)
      invariant Tree(E, src, d, prev, S, rank)
    {
      var (nbr, weight) := nbrs[j];
      assert nbr in adj && nbr in Table(d);
      var newDis := Add(dis, Finite(weight));
      if Lt(newDis, d[nbr]) {
        Fires(E, adj, src, v, j, minHeap.heapList, minHeap.pos, d, prev, S, rank, dis);
        d := d[nbr := newDis];
        minHeap.ChangeDistance(nbr, newDis);
        prev := prev[nbr := v];
      } else {
        RelaxSkips(E, adj, src, v, j, minHeap.heapList, minHeap.pos, Table(d), S, dis);
      }
    }
    Relaxed(E, adj, src, v, minHeap.heapList, minHeap.pos, Table(d), S, dis);
  }

  /** One round of the loop of lines 297-309: extract the vertex with the least key, then
      relax the edges out of it. */
  method Step(ghost E: seq<Edge>, adj: map<int, Nbrs>, src: int, minHeap: MinHeap,
              d0: seq<ExtInt>, prev0: seq<int>, ghost S0: set<int>, ghost rank0: map<int, int>, ghost last0: ExtInt)
    returns (d: seq<ExtInt>, prev: seq<int>, ghost S: set<int>, ghost rank: map<int, int>, ghost last: ExtInt)
    requires minHeap.Sized() && minHeap.currentSize != 0
    requires Running(E, adj, src, minHeap.heapList, minHeap.pos, d0, prev0, S0, rank0, last0)
    modifies minHeap
    ensures minHeap.Sized() && minHeap.currentSize < old(minHeap.currentSize) && |d| == |d0|
    ensures Running(E, adj, src, minHeap.heapList, minHeap.pos, d, prev, S, rank, last)
  {
    Extract(E, adj, src, minHeap.heapList, minHeap.pos, Table(d0), S0, last0);
    var entry := minHeap.DelMin();
    var v, dis := entry.v, entry.key;
    TreeExtract(E, src, d0, prev0, S0, rank0, v);
    S, rank, last := S0 + {v}, rank0[v := |S0|], dis;
    d, prev := RelaxOut(E, adj, src, minHeap, v, dis, d0, prev0, S, rank);
  }

  /** while minHeap.currentSize (lines 297-309): every vertex is extracted, in order of
      extraction rank, and ends with its shortest distance. */
  method Search(ghost E: seq<Edge>, adj: map<int, Nbrs>, src: int, minHeap: MinHeap,
                d0: seq<ExtInt>, prev0: seq<int>)
    returns (d: seq<ExtInt>, prev: seq<int>, ghost S: set<int>, ghost rank: map<int, int>)
    requires minHeap.Sized() && Running(E, adj, src, minHeap.heapList, minHeap.pos, d0, prev0, {}, map[], Finite(0))
    modifies minHeap
    ensures |d| == |d0| && Tree(E, src, d, prev, S, rank) && S == adj.Keys
    ensures forall v :: v in adj ==> 0 <= v < |d| && Shortest(E, src, v, d[v])
  {
    d, prev, S, rank := d0, prev0, {}, map[];
    ghost var last := Finite(0);
    while minHeap.currentSize != 0
      invariant minHeap.Sized() && |d| == |d0|
      invariant Running(E, adj, src, minHeap.heapList, minHeap.pos, d, prev, S, rank, last)
      decreases minHeap.currentSize
    {
      d, prev, S, rank, last := Step(E, adj, src, minHeap, d, prev, S, rank, last);
    }
    Done(E, adj, src, minHeap.heapList, minHeap.pos, Table(d), S, last);
    assert VertsOf(Contents(minHeap.heapList)) == {} by {
      assert Contents(minHeap.heapList) == multiset{};
    }
  }

  /** The loop of lines 313-318: every distance but src's goes back to its original length,
      and the least of them is kept, the first one on ties. */
  method Unweight(d0: seq<ExtInt>, src: int, weights: seq<int>)
    returns (distances: seq<ExtInt>, minDist: ExtInt, dest: Option<int>)
    requires |weights| == |d0| && 1 <= src < |d0|
    ensures |distances| == |d0| && distances[0] == d0[0] && distances[src] == d0[src]
    ensures forall v :: 1 <= v < |d0| && v != src ==> distances[v] == Restored(d0, weights, src)[v]
    ensures Nearest(d0, weights, src, minDist, dest)
  {
    ghost var ud := Restored(d0, weights, src);
    distances := d0;
    minDist := Inf;
    dest := None;
    for i := 1 to |d0|
      invariant |distances| == |d0| && distances[0] == d0[0] && distances[src] == d0[src]
      invariant forall v :: 1 <= v < i && v != src ==> distances[v] == ud[v]
      invariant forall v :: i <= v < |d0| ==> distances[v] == d0[v]
      invariant minDist == MinOther(ud, src, 1, i)
      invariant minDist.Inf? <==> dest.None?
      invariant dest.Some? ==> (1 <= dest.value < i && dest.value != src && ud[dest.value] == minDist
        && forall t :: 1 <= t < dest.value && t != src ==> Lt(minDist, ud[t]))
    {
      if i != src {
        // distances[i] -= weights[src] - weights[i]
        distances := distances[i := Add(distances[i], Finite(weights[i] - weights[src]))];
        if Lt(distances[i], minDist) {
          minDist := distances[i];
          dest := Some(i);
        }
      }
    }
  }

  /** After the search every finite distance has a predecessor chain back to src. */
  lemma ChainsComplete(E: seq<Edge>, src: int, d: seq<ExtInt>, prev: seq<int>, S: set<int>,
                       rank: map<int, int>, x: int)
    requires Tree(E, src, d, prev, S, rank) && (forall v :: v in S <==> 0 <= v < |d|)
    requires 0 <= x < |d| && d[x].Finite?
    ensures BF.PathTo(prev, x, |d|).Some?
  {
    RankBelow(S, rank, prev, |d|, x);
    PathComplete(E, src, d, prev, S, rank, x, |d|);
  }

  /** The path getPath returns for dest is the vertex sequence of a walk of the original
      graph from src to dest of length minDist. */
  lemma PathFound(E0: seq<Edge>, h: seq<int>, E: seq<Edge>, src: int, d: seq<ExtInt>, prev: seq<int>,
                  S: set<int>, rank: map<int, int>, dest: int)
    requires ReweightOf(E0, h, E) && |h| == |d| && Tree(E, src, d, prev, S, rank)
    requires forall v :: v in S <==> 0 <= v < |d|
    requires forall v :: 0 <= v < |d| ==> Shortest(E, src, v, d[v])
    requires 0 <= src < |d| && 1 <= dest < |d| && dest != src
    requires Restored(d, h, src)[dest].Finite?
    ensures BF.PathTo(prev, dest, |d|).Some?
    ensures var vs := BF.PathTo(prev, dest, |d|).value;
      BF.WalkPath(E0, |d| - 1, src, vs, Restored(d, h, src)[dest]) && |vs| > 0 && vs[|vs| - 1] == dest
  {
    ChainsComplete(E, src, d, prev, S, rank, dest);
    forall v | 0 <= v < |d| ensures Below(E, src, v, d[v]) {
      assert Shortest(E, src, v, d[v]);
    }
    ShortestStable(E, src, d);
    var q := BF.PathWalk(E, src, d, prev, dest, |d|);
    WalkRestored(E0, h, E, q, src, dest);
    var p := RestoreWalk(q, h);
    ShortestRestored(E0, h, E, src, dest, d[dest]);
    assert Le(Restored(d, h, src)[dest], Finite(Weight(p)));
    assert Visits(src, p)[|p|] == dest;
  }

  /** The original distances are the shortest ones, so their least is the least walk
      length from src to another of the vertices 1 to |d| - 1. */
  lemma RestoredLeast(E0: seq<Edge>, h: seq<int>, E: seq<Edge>, src: int, d: seq<ExtInt>)
    requires ReweightOf(E0, h, E) && |h| == |d| && 0 <= src < |d|
    requires forall v :: 0 <= v < |d| ==> Shortest(E, src, v, d[v])
    ensures forall v :: 0 <= v < |d| ==> Shortest(E0, src, v, Restored(d, h, src)[v])
    ensures LeastFrom(E0, 1, |d|, src, MinOther(Restored(d, h, src), src, 1, |d|))
  {
    var ud := Restored(d, h, src);
    forall v | 0 <= v < |d| ensures Shortest(E0, src, v, ud[v]) {
      ShortestRestored(E0, h, E, src, v, d[v]);
    }
    ShortestLeast(E0, 1, |d|, src, ud);
  }

  /** Vertices before dest are further away than every walk to dest. */
  lemma FirstFound(E0: seq<Edge>, src: int, ud: seq<ExtInt>, dest: int, m: ExtInt)
    requires 1 <= dest < |ud| && dest != src
    requires forall v :: 0 <= v < |ud| ==> Shortest(E0, src, v, ud[v])
    requires forall t :: 1 <= t < dest && t != src ==> Lt(m, ud[t])
    ensures FirstAttained(E0, |ud| - 1, src, dest, m)
  {
    forall t, q | 1 <= t < dest && t != src && IsWalk(E0, q, src, t) ensures Lt(m, Finite(Weight(q))) {
      assert Below(E0, src, t, ud[t]);
      assert Le(ud[t], Finite(Weight(q)));
    }
  }

  /** The search's graph has its vertices among 0 to |h| - 1. */
  lemma ReweightedIn(E0: seq<Edge>, h: seq<int>, E: seq<Edge>)
    requires ReweightOf(E0, h, E)
    ensures VerticesIn(E, 0, |h|)
  {
  }

  /** The heap invariant and the predecessor invariant together. */
  lemma Begins(E: seq<Edge>, adj: map<int, Nbrs>, src: int, h: seq<Entry>, pos: map<int, int>,
               d: seq<ExtInt>, prev: seq<int>)
    requires SearchGraph(E, adj, src) && Inv(E, adj, src, h, pos, Table(d), {}, Finite(0))
    requires Tree(E, src, d, prev, {}, map[])
    ensures Running(E, adj, src, h, pos, d, prev, {}, map[], Finite(0))
  {
  }

  /** Lines 279-292: the heap of every vertex at inf, distances at inf, src its own
      predecessor, then src's distance and key lowered to 0. */
  method Start(order: seq<int>, adj: map<int, Nbrs>, n: nat, src: int, ghost E: seq<Edge>)
    returns (minHeap: MinHeap, distances: seq<ExtInt>, prev: seq<int>)
    requires OnVertices(order, adj, n) && E == Edges(order, adj) && SearchGraph(E, adj, src)
    requires VerticesIn(E, 0, n)
    ensures fresh(minHeap) && minHeap.Sized() && |distances| == n
    ensures Running(E, adj, src, minHeap.heapList, minHeap.pos, distances, prev, {}, map[], Finite(0))
  {
    minHeap := FillHeap(order, adj);
    distances := seq(n, _ => Inf);
    prev := seq(n, _ => -1);
    prev := prev[src := src];
    DijkstraSearch.Initial(E, adj, src, minHeap.heapList, minHeap.pos, Table(distances));
    TableUpdate(distances, src, Finite(0));
    distances := distances[src := Finite(0)];
    minHeap.ChangeDistance(src, Finite(0));
    InitialLists(n, src);
    TreeStart(E, n, src);
    Begins(E, adj, src, minHeap.heapList, minHeap.pos, distances, prev);
  }

  /** The path to the nearest vertex is the vertex sequence of a shortest walk to it. */
  lemma Answers(E0: seq<Edge>, h: seq<int>, E: seq<Edge>, src: int, d: seq<ExtInt>, prev: seq<int>,
                S: set<int>, rank: map<int, int>, minDist: ExtInt, dest: Option<int>)
    requires Searched(E0, h, E, src, d, prev, S, rank) && Nearest(d, h, src, minDist, dest)
    ensures minDist.Finite? ==> dest.Some? && 0 <= dest.value < |prev|
    ensures Answered(E0, |d| - 1, src, minDist,
                     if minDist.Finite? then BF.PathTo(prev, dest.value, |d|) else None)
  {
    RestoredLeast(E0, h, E, src, d);
    if minDist.Finite? {
      PathFound(E0, h, E, src, d, prev, S, rank, dest.value);
      FirstFound(E0, src, Restored(d, h, src), dest.value, minDist);
    }
  }

  /** Lines 311-324, once the search is over: minDist and the path to where it is first
      attained. */
  method Answer(d: seq<ExtInt>, prev: seq<int>, src: int, weights: seq<int>, ghost E0: seq<Edge>,
                ghost E: seq<Edge>, ghost S: set<int>, ghost rank: map<int, int>)
    returns (minDist: ExtInt, path: Option<seq<int>>)
    requires Searched(E0, weights, E, src, d, prev, S, rank)
    ensures Answered(E0, |d| - 1, src, minDist, path)
  {
    var distances, dest;
    distances, minDist, dest := Unweight(d, src, weights);
    Answers(E0, weights, E, src, d, prev, S, rank, minDist, dest);
    if minDist != Inf {
      path := BF.PathTo(prev, dest.value, |d|);
    } else {
      path := None;
    }
  }

  /** The search over the dictionaries of the vertices 0 to |d| - 1 reaches them all. */
  lemma SearchedAll(E0: seq<Edge>, h: seq<int>, order: seq<int>, adj: map<int, Nbrs>, src: int,
                    d: seq<ExtInt>, prev: seq<int>, S: set<int>, rank: map<int, int>)
    requires OnVertices(order, adj, |d|) && ReweightOf(E0, h, Edges(order, adj)) && |h| == |d|
    requires 1 <= src < |d| && Tree(Edges(order, adj), src, d, prev, S, rank) && S == adj.Keys
    requires forall v :: v in adj ==> 0 <= v < |d| && Shortest(Edges(order, adj), src, v, d[v])
    ensures Searched(E0, h, Edges(order, adj), src, d, prev, S, rank)
  {
  }

  /** Lines 279-309: the search from src over the dictionaries. */
  method Explore(order: seq<int>, adj: map<int, Nbrs>, n: nat, src: int, ghost E: seq<Edge>)
    returns (distances: seq<ExtInt>, prev: seq<int>, ghost S: set<int>, ghost rank: map<int, int>)
    requires OnVertices(order, adj, n) && E == Edges(order, adj) && SearchGraph(E, adj, src)
    requires VerticesIn(E, 0, n)
    ensures |distances| == n && Tree(E, src, distances, prev, S, rank) && S == adj.Keys
    ensures forall v :: v in adj ==> 0 <= v < |distances| && Shortest(E, src, v, distances[v])
  {
    var minHeap;
    minHeap, distances, prev := Start(order, adj, n, src, E);
    distances, prev, S, rank := Search(E, adj, src, minHeap, distances, prev);
  }

  /** dijkstra(src, weights) (lines 278-324) over the reweighted dictionaries, whose edges
      are the original edges E0 reweighted by weights: minDist is the least original length
      of a walk from src to another vertex, and the path is such a walk to the first vertex
      that attains it. */
  method Dijkstra(order: seq<int>, adj: map<int, Nbrs>, vertexCount: int, src: int, weights: seq<int>,
                  ghost E0: seq<Edge>)
    returns (minDist: ExtInt, path: Option<seq<int>>)
    requires OnVertices(order, adj, vertexCount + 1) && DM.NonNegativeWeights(adj)
    requires 1 <= src <= vertexCount && |weights| == vertexCount + 1
    requires ReweightOf(E0, weights, Edges(order, adj))
    ensures Answered(E0, vertexCount, src, minDist, path)
  {
    ghost var E := Edges(order, adj);
    DM.GraphSearched(order, adj, src);
    ReweightedIn(E0, weights, E);
    var distances, prev, S, rank := Explore(order, adj, vertexCount + 1, src, E);
    SearchedAll(E0, weights, order, adj, src, distances, prev, S, rank);
    minDist, path := Answer(distances, prev, src, weights, E0, Edges(order, adj), S, rank);
  }
}
