/** PrimSpanningTree.py: the undirected graph read from the input lines, the heap of the
    vertices not yet reached, and the two versions of Prim's algorithm, the slow scan of
    every seen vertex and the one with the heap. Both are proved to perform a run of
    Prim's algorithm, so both return the weight of a minimum spanning tree. */
module PrimSpanningTree {
  import opened Wrappers
  import opened ExtInt
  import opened Walks
  import opened IndexedHeap
  import opened SpanningTrees
  import opened PrimQueue

  /** The exceptions the program can raise: the KeyError of getVertex on a vertex no input
      line names, and minSpanningTree's "input graph is not connected". */
  datatype Error = KeyError(key: int) | NotConnected

  // The graph

  /** u - v is the line v1 v2, read in either direction. */
  predicate Joins(v1: int, v2: int, u: int, v: int)
  {
    (u == v1 && v == v2) || (u == v2 && v == v1)
  }

  /** The Graph class: vertList maps each vertex to its connectedTo dictionary. */
  class Graph {
    var vertList: Weights

    constructor ()
      ensures vertList == map[]
    {
      vertList := map[];
    }

    /** addEdge (lines 19-26): both vertices exist afterwards and the edge is written in
        both directions with the new weight; every other edge keeps its weight. */
    method AddEdge(v1: int, v2: int, weight: int)
      modifies this
      ensures vertList.Keys == old(vertList).Keys + {v1, v2}
      ensures forall u, v :: HasEdge(vertList, u, v) <==> HasEdge(old(vertList), u, v) || Joins(v1, v2, u, v)
      ensures forall u, v :: Joins(v1, v2, u, v) ==> HasEdge(vertList, u, v) && vertList[u][v] == weight
      ensures forall u, v :: HasEdge(old(vertList), u, v) && !Joins(v1, v2, u, v) ==>
        HasEdge(vertList, u, v) && vertList[u][v] == old(vertList)[u][v]
    {
      var from1 := if v1 in vertList then vertList[v1] else map[];
      vertList := vertList[v1 := from1[v2 := weight]];
      var from2 := if v2 in vertList then vertList[v2] else map[];
      vertList := vertList[v2 := from2[v1 := weight]];
    }
  }

  /** The vertices the lines name. */
  function Named(lines: seq<Edge>): set<int>
  {
    if lines == [] then {} else Named(lines[..|lines| - 1]) + {lines[|lines| - 1].s, lines[|lines| - 1].d}
  }

  /** The weight the lines give the edge u - v: that of the last line joining u and v, in
      either direction, and None when no line does. */
  function LastJoin(lines: seq<Edge>, u: int, v: int): Option<int>
  {
    if lines == [] then None
    else
      var l := lines[|lines| - 1];
      if Joins(l.s, l.d, u, v) then Some(l.w) else LastJoin(lines[..|lines| - 1], u, v)
  }

  /** vertList after the lines are read: a vertex for every name, an edge for every pair a
      line joins, weighted by the last such line. */
  ghost predicate Describes(W: Weights, lines: seq<Edge>)
  {
    W.Keys == Named(lines)
    && (forall u, v :: HasEdge(W, u, v) <==> LastJoin(lines, u, v).Some?)
    && (forall u, v :: HasEdge(W, u, v) ==> W[u][v] == LastJoin(lines, u, v).value)
  }

  /** Reading one more line with addEdge keeps vertList the graph of the lines read, and
      keeps it undirected on the vertices 1 to n. */
  lemma ReadStep(W0: Weights, W: Weights, n: nat, lines: seq<Edge>, l: Edge)
    requires Describes(W0, lines) && Undirected(W0, n) && 1 <= l.s <= n && 1 <= l.d <= n
    requires W.Keys == W0.Keys + {l.s, l.d}
    requires forall u, v :: HasEdge(W, u, v) <==> HasEdge(W0, u, v) || Joins(l.s, l.d, u, v)
    requires forall u, v :: Joins(l.s, l.d, u, v) ==> HasEdge(W, u, v) && W[u][v] == l.w
    requires forall u, v :: HasEdge(W0, u, v) && !Joins(l.s, l.d, u, v) ==> HasEdge(W, u, v) && W[u][v] == W0[u][v]
    ensures Describes(W, lines + [l]) && Undirected(W, n)
  {
    assert (lines + [l])[..|lines|] == lines;
  }

  // The heap

  /** MinHeap.__init__ (lines 32-52): the vertices 1 to n, each keyed inf at the index equal
      to its name. */
  method NewHeap(n: nat) returns (minHeap: MinHeap)
    ensures fresh(minHeap) && minHeap.Sized() && |minHeap.heapList| == n + 1
    ensures forall k :: 1 <= k <= n ==> minHeap.heapList[k] == Entry(k, Inf)
    ensures forall v :: v in minHeap.pos <==> 1 <= v <= n
    ensures forall v :: v in minHeap.pos ==> minHeap.pos[v] == v
  {
    minHeap := new MinHeap();
    for i := 1 to n + 1
      invariant minHeap.Sized() && |minHeap.heapList| == i
      invariant forall k :: 1 <= k < i ==> minHeap.heapList[k] == Entry(k, Inf)
      invariant forall v :: v in minHeap.pos <==> 1 <= v < i
      invariant forall v :: v in minHeap.pos ==> minHeap.pos[v] == v
    {
      minHeap.InitInsert(i, Inf, i);
    }
  }

  /** MinHeap.update (lines 145-154): the key of vertex drops to newCost when newCost is
      smaller, and the entry percolates up. */
  method Update(minHeap: MinHeap, vertex: int, newCost: ExtInt)
    requires vertex in minHeap.pos && 1 <= minHeap.pos[vertex] < |minHeap.heapList|
    modifies minHeap
    ensures (minHeap.heapList, minHeap.pos) == UpdateOf(old(minHeap.heapList), old(minHeap.pos), vertex, newCost)
    ensures minHeap.currentSize == old(minHeap.currentSize)
  {
    var index := minHeap.pos[vertex];
    var currCost := minHeap.heapList[index].key;
    if Lt(newCost, currCost) {
      minHeap.ChangeDistance(vertex, newCost);
    }
  }

  /** MinHeap.insert as written (lines 64-70): the position of the new vertex is set after
      the percolation, to the last index. */
  method InsertAsWritten(minHeap: MinHeap, vertex: int, cost: ExtInt)
    requires minHeap.Sized()
    modifies minHeap
    ensures minHeap.Sized()
    ensures (minHeap.heapList, minHeap.pos) == InsertAsWrittenOf(old(minHeap.heapList), old(minHeap.pos), vertex, cost)
  {
    minHeap.heapList := minHeap.heapList + [Entry(vertex, cost)];
    minHeap.currentSize := minHeap.currentSize + 1;
    minHeap.PercUp(minHeap.currentSize);
    minHeap.pos := minHeap.pos[vertex := minHeap.currentSize];
  }

  // minSpanningTree: the slow version

  /** The loop over the edges of the seen vertex v (lines 205-209): a lighter edge to a
      vertex not seen replaces the best one so far. */
  method ScanVertex(W: Weights, n: nat, seen: set<int>, v: int, minEdge0: ExtInt, next0: Option<int>, ghost from0: int)
    returns (minEdge: ExtInt, nextVertex: Option<int>, ghost from: int)
    requires Within(W, n) && v in W && v in seen
    ensures Le(minEdge, minEdge0)
    ensures forall y :: Crossing(W, n, seen, v, y) ==> Le(minEdge, Finite(W[v][y]))
    ensures (minEdge, nextVertex, from) == (minEdge0, next0, from0)
         || (from == v && nextVertex.Some? && Crossing(W, n, seen, v, nextVertex.value)
             && minEdge == Finite(W[v][nextVertex.value]))
  {
    minEdge, nextVertex, from := minEdge0, next0, from0;
    var todo := W[v].Keys;
    while todo != {}
      invariant todo <= W[v].Keys && Le(minEdge, minEdge0)
      invariant forall y :: y in W[v] && y !in todo && Crossing(W, n, seen, v, y) ==> Le(minEdge, Finite(W[v][y]))
      invariant (minEdge, nextVertex, from) == (minEdge0, next0, from0)
             || (from == v && nextVertex.Some? && Crossing(W, n, seen, v, nextVertex.value)
                 && minEdge == Finite(W[v][nextVertex.value]))
      decreases |todo|
    {
      Reachability.NonEmpty(todo);
      var v2 :| v2 in todo;
      todo := todo - {v2};
      var edge := W[v][v2];
      if v2 !in seen && Lt(Finite(edge), minEdge) {
        assert HasEdge(W, v, v2);
        minEdge, nextVertex, from := Finite(edge), Some(v2), v;
      }
    }
  }

  /** The loop over the seen vertices (lines 198-209): it stops with the KeyError of a seen
      vertex that has no dictionary, and otherwise finds a cheapest edge leaving the seen
      vertices, or None when no edge leaves them. */
  method ScanSeen(W: Weights, n: nat, seen: set<int>) returns (r: Result<(ExtInt, Option<int>), Error>, ghost from: int)
    requires Within(W, n) && InRange(n, seen)
    ensures r.Failure? ==> r.error.KeyError? && r.error.key in seen && r.error.key !in W
    ensures (forall v :: v in seen ==> v in W) ==> r.Success?
    ensures r.Success? && r.value.1.None? ==> forall u, y :: !Crossing(W, n, seen, u, y)
    ensures r.Success? && r.value.1.Some? ==>
      r.value.0.Finite? && Cheapest(W, n, seen, Step(from, r.value.1.value, r.value.0.n))
  {
    var minEdge := Inf;
    var nextVertex: Option<int> := None;
    from := 0;
    var todo := seen;
    while todo != {}
      invariant todo <= seen
      invariant forall u, y :: u in seen && u !in todo && Crossing(W, n, seen, u, y) ==> Le(minEdge, Finite(W[u][y]))
      invariant nextVertex.None? ==> minEdge == Inf
      invariant nextVertex.Some? ==>
        Crossing(W, n, seen, from, nextVertex.value) && minEdge == Finite(W[from][nextVertex.value])
      decreases |todo|
    {
      Reachability.NonEmpty(todo);
      var v :| v in todo;
      if v !in W {
        return Failure(KeyError(v)), from;
      }
      minEdge, nextVertex, from := ScanVertex(W, n, seen, v, minEdge, nextVertex, from);
      todo := todo - {v};
    }
    r := Success((minEdge, nextVertex));
  }

  /** Fewer than n of the vertices 1 to n: one of them is missing. */
  lemma SpanningCard(n: nat, S: set<int>)
    ensures Spanning(n, S) ==> |S| >= n
  {
    if Spanning(n, S) {
      Reachability.SubsetCard(Interval(1, n + 1), S);
      IntervalCard(1, n + 1);
    }
  }

  /** A set of vertices 1 to n that misses v has fewer than n of them. */
  lemma MissingCard(n: nat, S: set<int>, v: int)
    requires InRange(n, S) && 1 <= v <= n
    ensures v !in S ==> |S| < n
  {
    if v !in S {
      Reachability.SubsetCard(S, Interval(1, n + 1) - {v});
      IntervalCard(1, n + 1);
    }
  }

  /** minSpanningTree (lines 184-219) from start: a KeyError when start has no dictionary,
      the exception "not connected" only on a graph that is not, and otherwise the total of
      a complete run of Prim's algorithm. */
  method SlowPrim(W: Weights, n: nat, start: int) returns (r: Result<int, Error>, ghost steps: seq<Step>)
    requires Undirected(W, n) && 1 <= start <= n
    ensures r.Failure? ==> (r.error == KeyError(start) && start !in W) || (r.error == NotConnected && !Connected(W, n))
    ensures r.Success? ==> PrimRun(W, n, {start}, steps) && r.value == Total(steps)
  {
    var seen: set<int> := {start};
    var mstCount := 0;
    steps := [];
    while |seen| < n
      invariant InRange(n, seen) && seen == Seen({start}, steps)
      invariant PrimSteps(W, n, {start}, steps) && mstCount == Total(steps)
      invariant forall v :: v in seen && v != start ==> v in W
      decreases n - |seen|
    {
      var scan, from := ScanSeen(W, n, seen);
      if scan.Failure? {
        return Failure(scan.error), steps;
      }
      var (minEdge, nextVertex) := scan.value;
      if nextVertex.None? {
        SpanningCard(n, seen);
        assert Cut(W, n, seen);
        return Failure(NotConnected), steps;
      }
      ghost var pre := steps;
      steps := steps + [Step(from, nextVertex.value, minEdge.n)];
      assert steps[..|steps| - 1] == pre;
      seen := seen + {nextVertex.value};
      mstCount := mstCount + minEdge.n;
    }
    forall v | 1 <= v <= n ensures v in seen {
      MissingCard(n, seen, v);
    }
    r := Success(mstCount);
  }

  // minSpanningTreeHeap: the version with the heap

  /** One edge x - v2 of the loop over x's edges (lines 242-245): a vertex not seen is
      offered the weight of the edge. */
  method Offer(W: Weights, n: nat, ghost seen0: set<int>, x: int, seen: set<int>, ghost done: set<int>,
               minHeap: MinHeap, v2: int)
    requires Within(W, n) && HasEdge(W, x, v2) && v2 !in done && seen == seen0 + {x}
    requires minHeap.Sized() && Mid(W, n, seen0, x, done, minHeap.heapList, minHeap.pos)
    modifies minHeap
    ensures minHeap.Sized() && minHeap.currentSize == old(minHeap.currentSize)
    ensures Mid(W, n, seen0, x, done + {v2}, minHeap.heapList, minHeap.pos)
  {
    var edge := W[x][v2];
    if v2 !in seen {
      OfferedUnseen(W, n, seen0, x, done, minHeap.heapList, minHeap.pos, v2);
      Update(minHeap, v2, Finite(edge));
    } else {
      OfferedSeen(W, n, seen0, x, done, minHeap.heapList, minHeap.pos, v2);
    }
  }

  /** The loop over the edges of the extracted vertex x (lines 241-245): every vertex not
      seen is offered its edge from x. */
  method OfferEdges(W: Weights, n: nat, ghost seen0: set<int>, x: int, seen: set<int>, minHeap: MinHeap)
    requires Within(W, n) && x in W && seen == seen0 + {x}
    requires minHeap.Sized() && Mid(W, n, seen0, x, {}, minHeap.heapList, minHeap.pos)
    modifies minHeap
    ensures minHeap.Sized() && minHeap.currentSize == old(minHeap.currentSize)
    ensures Mid(W, n, seen0, x, W[x].Keys, minHeap.heapList, minHeap.pos)
  {
    var todo := W[x].Keys;
    ghost var done: set<int> := {};
    while todo != {}
      invariant todo + done == W[x].Keys && todo !! done
      invariant minHeap.Sized() && minHeap.currentSize == old(minHeap.currentSize)
      invariant Mid(W, n, seen0, x, done, minHeap.heapList, minHeap.pos)
      decreases |todo|
    {
      Reachability.NonEmpty(todo);
      var v2 :| v2 in todo;
      Offer(W, n, seen0, x, seen, done, minHeap, v2);
      todo, done := todo - {v2}, done + {v2};
    }
    assert done == W[x].Keys;
  }

  /** One round of the loop of minSpanningTreeHeap (lines 235-245): the vertex of least
      key leaves the heap and is seen, its key is added up, and its edges are offered; the
      KeyError of getVertex when it has no dictionary. */
  method Round(W: Weights, n: nat, start: int, minHeap: MinHeap, seen0: set<int>, mstCount0: ExtInt, ghost steps0: seq<Step>)
    returns (seen: set<int>, mstCount: ExtInt, missing: Option<int>, ghost steps: seq<Step>)
    requires Within(W, n) && 1 <= start <= n && minHeap.currentSize > 0
    requires minHeap.Sized() && Queue(W, n, start, minHeap.heapList, minHeap.pos, seen0)
    requires Account(W, n, start, seen0, mstCount0, steps0)
    modifies minHeap
    ensures missing.Some? ==> 1 <= missing.value <= n && missing.value !in W
    ensures missing.None? ==> minHeap.Sized() && minHeap.currentSize < old(minHeap.currentSize)
    ensures missing.None? ==> Queue(W, n, start, minHeap.heapList, minHeap.pos, seen)
    ensures missing.None? ==> Account(W, n, start, seen, mstCount, steps)
  {
    ghost var h, pos := minHeap.heapList, minHeap.pos;
    ExtractedLeast(W, n, start, h, pos, seen0);
    ExtractedMid(W, n, start, h, pos, seen0);
    var entry := minHeap.DelMin();
    var minVertex, minEdge := entry.v, entry.key;
    steps := Accounted(W, n, start, h, pos, seen0, mstCount0, steps0, minVertex, minEdge);
    seen := seen0 + {minVertex};
    mstCount := Add(mstCount0, minEdge);
    if minVertex !in W {
      return seen, mstCount, Some(minVertex), steps;
    }
    OfferEdges(W, n, seen0, minVertex, seen, minHeap);
    Offered(W, n, start, seen0, minVertex, minHeap.heapList, minHeap.pos);
    missing := None;
  }

  /** minSpanningTreeHeap (lines 223-247) from start: a KeyError for an extracted vertex
      without a dictionary; otherwise inf only on a graph that is not connected, and a
      finite total only as the total of a complete run of Prim's algorithm. */
  method HeapPrim(W: Weights, n: nat, start: int) returns (r: Result<ExtInt, Error>, ghost steps: seq<Step>)
    requires Within(W, n) && 1 <= start <= n
    ensures r.Failure? ==> r.error.KeyError? && 1 <= r.error.key <= n && r.error.key !in W
    ensures r.Success? && r.value.Inf? ==> !Connected(W, n)
    ensures r.Success? && r.value.Finite? ==> PrimRun(W, n, {start}, steps) && r.value.n == Total(steps)
  {
    var minHeap := NewHeap(n);
    var seen: set<int> := {};
    var mstCount := Finite(0);
    steps := [];
    Begin(W, n, start, minHeap.heapList, minHeap.pos);
    Update(minHeap, start, Finite(0));
    while minHeap.currentSize > 0
      invariant minHeap.Sized() && Queue(W, n, start, minHeap.heapList, minHeap.pos, seen)
      invariant Account(W, n, start, seen, mstCount, steps)
      decreases minHeap.currentSize
    {
      var missing;
      seen, mstCount, missing, steps := Round(W, n, start, minHeap, seen, mstCount, steps);
      if missing.Some? {
        return Failure(KeyError(missing.value)), steps;
      }
    }
    Emptied(W, n, start, minHeap.heapList, minHeap.pos, seen);
    r := Success(mstCount);
  }

  // The program

  /** The MinSpanningTree class: the graph of the input file and its vertex count. */
  class MinSpanningTree {
    var graph: Graph
    var vertexCount: nat

    ghost predicate Valid()
      reads this, graph
    {
      Undirected(graph.vertList, vertexCount)
    }

    /** __init__ (lines 159-177), with the file's first number and its lines given as
        parameters: the graph of the lines. */
    constructor (vertexCount: nat, lines: seq<Edge>)
      requires FileEdges(vertexCount, lines)
      ensures Valid() && this.vertexCount == vertexCount && Describes(graph.vertList, lines)
    {
      var g := new Graph();
      for i := 0 to |lines|
        invariant Describes(g.vertList, lines[..i]) && Undirected(g.vertList, vertexCount)
      {
        var l := lines[i];
        ghost var W0 := g.vertList;
        g.AddEdge(l.s, l.d, l.w);
        ReadStep(W0, g.vertList, vertexCount, lines[..i], l);
        assert lines[..i] + [l] == lines[..i + 1];
      }
      assert lines[..|lines|] == lines;
      graph := g;
      this.vertexCount := vertexCount;
    }

    /** minSpanningTree, from the start vertex __pickStartVertex draws. */
    method MinSpanningTree(start: int) returns (r: Result<int, Error>, ghost steps: seq<Step>)
      requires Valid() && 1 <= start <= vertexCount
      ensures r.Failure? ==> (r.error == KeyError(start) && start !in graph.vertList)
                             || (r.error == NotConnected && !Connected(graph.vertList, vertexCount))
      ensures r.Success? ==> PrimRun(graph.vertList, vertexCount, {start}, steps) && r.value == Total(steps)
    {
      r, steps := SlowPrim(graph.vertList, vertexCount, start);
    }

    /** minSpanningTreeHeap, from the start vertex __pickStartVertex draws. */
    method MinSpanningTreeHeap(start: int) returns (r: Result<ExtInt, Error>, ghost steps: seq<Step>)
      requires Valid() && 1 <= start <= vertexCount
      ensures r.Failure? ==> r.error.KeyError? && 1 <= r.error.key <= vertexCount && r.error.key !in graph.vertList
      ensures r.Success? && r.value.Inf? ==> !Connected(graph.vertList, vertexCount)
      ensures r.Success? && r.value.Finite? ==>
        PrimRun(graph.vertList, vertexCount, {start}, steps) && r.value.n == Total(steps)
    {
      r, steps := HeapPrim(graph.vertList, vertexCount, start);
    }

    /** The two answers the program prints (lines 250-254), from one start vertex: on a
        connected graph in which every vertex has an edge, both versions return, and they
        return the same weight, that of a minimum spanning tree. */
    method Answers(start: int) returns (ans1: Result<int, Error>, ans2: Result<ExtInt, Error>)
      requires Valid() && 1 <= start <= vertexCount
      ensures Connected(graph.vertList, vertexCount) && (forall v :: 1 <= v <= vertexCount ==> v in graph.vertList) ==>
        ans1.Success? && ans2 == Success(Finite(ans1.value))
    {
      ghost var steps1, steps2;
      ans1, steps1 := MinSpanningTree(start);
      ans2, steps2 := MinSpanningTreeHeap(start);
      if ans1.Success? && ans2.Success? && ans2.value.Finite? {
        SameTotal(graph.vertList, vertexCount, {start}, steps1, steps2);
      }
    }
  }
}
