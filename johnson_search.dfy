/** The predecessor list of Johnson's dijkstra: what the loop records in it, and why
    following it back from a reached vertex always ends at the source. The distance list
    is indexed by vertex id; DijkstraSearch states its invariant over the same list read
    as a dictionary. */
module JohnsonSearch {
  import opened Wrappers
  import opened ExtInt
  import opened Walks
  import opened Relaxation
  import opened IndexedHeap
  import opened VertexGraph
  import opened DijkstraSearch
  import opened Reweighting
  import BF = AllPairsBellmanFord

  /** The distance list read as a dictionary from vertex id to distance. */
  function Table(d: seq<ExtInt>): (m: map<int, ExtInt>)
    ensures forall v :: v in m <==> 0 <= v < |d|
    ensures forall v :: 0 <= v < |d| ==> m[v] == d[v]
  {
    map v | 0 <= v < |d| :: d[v]
  }

  lemma TableUpdate(d: seq<ExtInt>, y: int, x: ExtInt)
    requires 0 <= y < |d|
    ensures Table(d[y := x]) == Table(d)[y := x]
  {
  }

  /** The predecessor list before the loop: the source is its own predecessor, every other
      vertex has -1. */
  function InitialPrev(n: nat, src: int): (prev: seq<int>)
    requires 0 <= src < n
    ensures |prev| == n && prev[src] == src
    ensures forall v :: 0 <= v < n && v != src ==> prev[v] == -1
  {
    seq(n, v => if v == src then src else -1)
  }

  /** The lists built as all inf and all -1, with src's entry set afterwards. */
  lemma InitialLists(n: nat, src: int)
    requires 0 <= src < n
    ensures seq(n, _ => Inf)[src := Finite(0)] == Relaxation.Initial(n, src)
    ensures seq(n, _ => -1)[src := src] == InitialPrev(n, src)
  {
  }

  /** Extracted vertices are numbered in extraction order, and every vertex whose
      predecessor is another vertex got it from a vertex extracted before it. */
  ghost predicate Ranked(prev: seq<int>, S: set<int>, rank: map<int, int>)
  {
    rank.Keys == S && (forall x :: x in S ==> 0 <= rank[x] < |S|)
    && forall v :: 0 <= v < |prev| && prev[v] != -1 && prev[v] != v ==>
         prev[v] in S && (v in S ==> rank[prev[v]] < rank[v])
  }

  /** The predecessor invariant of the loop. */
  ghost predicate Tree(E: seq<Edge>, src: int, d: seq<ExtInt>, prev: seq<int>, S: set<int>, rank: map<int, int>)
  {
    VerticesIn(E, 0, |d|) && BF.PrevOk(E, src, d, prev) && Ranked(prev, S, rank)
  }

  lemma TreeStart(E: seq<Edge>, n: nat, src: int)
    requires 0 <= src < n && VerticesIn(E, 0, n)
    ensures Tree(E, src, Relaxation.Initial(n, src), InitialPrev(n, src), {}, map[])
  {
  }

  /** Extracting u gives it the next number. */
  lemma TreeExtract(E: seq<Edge>, src: int, d: seq<ExtInt>, prev: seq<int>, S: set<int>,
                    rank: map<int, int>, u: int)
    requires Tree(E, src, d, prev, S, rank) && u !in S
    ensures Tree(E, src, d, prev, S + {u}, rank[u := |S|])
  {
    assert |S + {u}| == |S| + 1;
  }

  /** Lowering the distance of an unextracted vertex through an edge out of an extracted
      one, and recording that vertex as its predecessor. */
  lemma TreeRelax(E: seq<Edge>, src: int, d: seq<ExtInt>, prev: seq<int>, S: set<int>,
                  rank: map<int, int>, j: int)
    requires Tree(E, src, d, prev, S, rank) && 0 <= j < |E| && Relaxes(d, E[j])
    requires E[j].s in S && E[j].d !in S
    ensures Tree(E, src, Relax(d, E[j]), prev[E[j].d := E[j].s], S, rank)
  {
    BF.PrevRelax(E, src, d, prev, j);
  }

  /** The predecessor half of that step, for an edge u -> y of the dictionaries. */
  lemma FiresTree(E: seq<Edge>, adj: map<int, Nbrs>, src: int, d: seq<ExtInt>, prev: seq<int>,
                  S: set<int>, rank: map<int, int>, u: int, y: int, w: int)
    requires EdgesOf(E, adj) && u in adj && (y, w) in adj[u] && Tree(E, src, d, prev, S, rank)
    requires u in S && y !in S && 0 <= u < |d| && 0 <= y < |d| && Lt(Add(d[u], Finite(w)), d[y])
    ensures Tree(E, src, d[y := Add(d[u], Finite(w))], prev[y := u], S, rank)
  {
    assert Edge(u, y, w) in E;
    var k :| 0 <= k < |E| && E[k] == Edge(u, y, w);
    TreeRelax(E, src, d, prev, S, rank, k);
    assert Relax(d, E[k]) == d[y := Add(d[u], Finite(w))];
  }

  /** The step of the inner loop where newDis < distances[nbr]: the distance, the heap
      key and the predecessor of nbr change together. */
  lemma Fires(E: seq<Edge>, adj: map<int, Nbrs>, src: int, u: int, j: int, h: seq<Entry>,
              pos: map<int, int>, d: seq<ExtInt>, prev: seq<int>, S: set<int>, rank: map<int, int>,
              last: ExtInt)
    requires SearchGraph(E, adj, src) && Mid(E, adj, src, u, j, h, pos, Table(d), S, last)
    requires Tree(E, src, d, prev, S, rank) && j < |adj[u]|
    requires 0 <= adj[u][j].0 < |d| && Lt(Add(last, Finite(adj[u][j].1)), d[adj[u][j].0])
    ensures var y := adj[u][j].0;
      y !in S && y in pos && 1 <= pos[y] < |h| && h[pos[y]].v == y
    ensures var (y, w) := adj[u][j];
      var nd := Add(last, Finite(w));
      var (h', pos') := ChangeKeyOf(h, pos, y, nd);
      && Mid(E, adj, src, u, j + 1, h', pos', Table(d[y := nd]), S, last)
      && Tree(E, src, d[y := nd], prev[y := u], S, rank)
  {
    var (y, w) := adj[u][j];
    RelaxFires(E, adj, src, u, j, h, pos, Table(d), S, last);
    TableUpdate(d, y, Add(last, Finite(w)));
    assert (y, w) in adj[u];
    FiresTree(E, adj, src, d, prev, S, rank, u, y, w);
  }

  /** The state between two rounds of dijkstra's outer loop: the heap invariant over the
      distance list read as a dictionary, and the predecessor invariant. */
  ghost predicate Running(E: seq<Edge>, adj: map<int, Nbrs>, src: int, h: seq<Entry>, pos: map<int, int>,
                          d: seq<ExtInt>, prev: seq<int>, S: set<int>, rank: map<int, int>, last: ExtInt)
  {
    SearchGraph(E, adj, src) && Inv(E, adj, src, h, pos, Table(d), S, last) && Tree(E, src, d, prev, S, rank)
  }

  /** Following predecessors back from an extracted vertex with a finite distance reaches
      the source within rank[x] steps. */
  lemma {:induction false} PathComplete(E: seq<Edge>, src: int, d: seq<ExtInt>, prev: seq<int>,
                                        S: set<int>, rank: map<int, int>, x: int, fuel: nat)
    requires Tree(E, src, d, prev, S, rank) && 0 <= x < |d| && d[x].Finite?
    requires x in S && (forall v :: 0 <= v < |d| ==> v in S) && fuel >= rank[x]
    ensures BF.PathTo(prev, x, fuel).Some?
    decreases fuel
  {
    assert BF.PrevAt(E, src, d, prev, x);
    if prev[x] != x {
      var u := prev[x];
      assert 0 <= u < |d| && d[u].Finite?;
      PathComplete(E, src, d, prev, S, rank, u, fuel - 1);
    }
  }

  /** Every extracted vertex's rank is below the number of vertices, once all 0 to n - 1
      are extracted. */
  lemma RankBelow(S: set<int>, rank: map<int, int>, prev: seq<int>, n: nat, x: int)
    requires Ranked(prev, S, rank) && x in S && forall v :: v in S <==> 0 <= v < n
    ensures rank[x] < n
  {
    assert S == Interval(0, n);
    IntervalCard(0, n);
  }

  /** The dictionaries describe a graph on exactly the vertices 0 to n - 1. */
  ghost predicate OnVertices(order: seq<int>, adj: map<int, Nbrs>, n: int)
  {
    Wf(order, adj) && forall v :: v in adj <==> 0 <= v < n
  }

  /** v is the first vertex after 1, other than src, that a walk from src reaches with
      length m: every vertex before it is further away. */
  ghost predicate FirstAttained(E: seq<Edge>, vertexCount: int, src: int, v: int, m: ExtInt)
  {
    1 <= v <= vertexCount && v != src
    && forall t, q :: 1 <= t < v && t != src && IsWalk(E, q, src, t) ==> Lt(m, Finite(Weight(q)))
  }

  /** The distances of a search in the reweighted graph, taken back to the original lengths:
      d[v] - (h[src] - h[v]), with inf staying inf. */
  function Restored(d: seq<ExtInt>, h: seq<int>, src: int): (r: seq<ExtInt>)
    requires |h| == |d| && 0 <= src < |d|
    ensures |r| == |d|
    ensures forall v :: 0 <= v < |d| ==> r[v] == Add(d[v], Finite(h[v] - h[src]))
  {
    seq(|d|, v requires 0 <= v < |d| => Add(d[v], Finite(h[v] - h[src])))
  }

  /** The state dijkstra's search ends in: E is E0 reweighted by h, every vertex 0 to
      |d| - 1 is extracted and has its shortest distance and a predecessor chain. */
  ghost predicate Searched(E0: seq<Edge>, h: seq<int>, E: seq<Edge>, src: int, d: seq<ExtInt>,
                           prev: seq<int>, S: set<int>, rank: map<int, int>)
  {
    ReweightOf(E0, h, E) && |h| == |d| && 1 <= src < |d|
    && Tree(E, src, d, prev, S, rank) && (forall v :: v in S <==> 0 <= v < |d|)
    && forall v :: 0 <= v < |d| ==> Shortest(E, src, v, d[v])
  }

  /** minDist is the least distance, back at the original lengths, from src to one of the
      vertices 1 to |d| - 1 other than src, and dest the first vertex with it (none when it
      is inf). */
  ghost predicate Nearest(d: seq<ExtInt>, h: seq<int>, src: int, minDist: ExtInt, dest: Option<int>)
  {
    |h| == |d| && 0 <= src < |d|
    && minDist == MinOther(Restored(d, h, src), src, 1, |d|)
    && (minDist.Inf? <==> dest.None?)
    && (dest.Some? ==>
          (1 <= dest.value < |d| && dest.value != src && Restored(d, h, src)[dest.value] == minDist
           && forall t :: 1 <= t < dest.value && t != src ==> Lt(minDist, Restored(d, h, src)[t])))
  }

  /** What dijkstra returns: minDist is the least length of a walk of E0 from src to
      another of the vertices 1 to vertexCount (inf when there is none), and the path is
      the vertex sequence of such a walk, ending at the first vertex that attains it. */
  ghost predicate Answered(E0: seq<Edge>, vertexCount: int, src: int, minDist: ExtInt, path: Option<seq<int>>)
  {
    LeastFrom(E0, 1, vertexCount + 1, src, minDist)
    && (minDist.Inf? <==> path.None?)
    && (path.Some? ==>
          (BF.WalkPath(E0, vertexCount, src, path.value, minDist) && |path.value| > 0
           && FirstAttained(E0, vertexCount, src, path.value[|path.value| - 1], minDist)))
  }
}
