/** The Vertex and Graph classes of the Dijkstra and Johnson programs: a dictionary from
    vertex id to vertex, each vertex holding a dictionary from neighbour id to edge weight.
    Both dictionaries keep insertion order, which decides the order of getEdges and of the
    heap's initial entries, so they are modelled as the list `order` of ids and, per
    vertex, an insertion-ordered list of (neighbour, weight) pairs. */
module VertexGraph {
  import opened Walks

  /** One vertex's connectedTo dictionary. */
  type Nbrs = seq<(int, int)>

  ghost predicate KeysDistinct(nbrs: Nbrs)
  {
    forall i, j :: 0 <= i < j < |nbrs| ==> nbrs[i].0 != nbrs[j].0
  }

  /** The dictionary a list of pairs stands for. */
  function AsMap(nbrs: Nbrs): map<int, int>
  {
    if |nbrs| == 0 then map[] else AsMap(nbrs[1..])[nbrs[0].0 := nbrs[0].1]
  }

  lemma {:induction false} AsMapKeys(nbrs: Nbrs)
    ensures forall d :: d in AsMap(nbrs) <==> exists k :: 0 <= k < |nbrs| && nbrs[k].0 == d
  {
    if |nbrs| > 0 {
      AsMapKeys(nbrs[1..]);
      forall d | d in AsMap(nbrs) ensures exists k :: 0 <= k < |nbrs| && nbrs[k].0 == d {
        if d != nbrs[0].0 {
          assert d in AsMap(nbrs[1..]);
          var k :| 0 <= k < |nbrs[1..]| && nbrs[1..][k].0 == d;
          assert nbrs[k + 1].0 == d;
        }
      }
      forall d | exists k :: 0 <= k < |nbrs| && nbrs[k].0 == d ensures d in AsMap(nbrs) {
        var k :| 0 <= k < |nbrs| && nbrs[k].0 == d;
        if k > 0 {
          assert nbrs[1..][k - 1].0 == d;
        }
      }
    }
  }

  /** Where d sits in the list, or -1. */
  function FindKey(nbrs: Nbrs, d: int): (k: int)
    ensures -1 <= k < |nbrs|
    ensures k >= 0 ==> nbrs[k].0 == d
    ensures k == -1 <==> forall j :: 0 <= j < |nbrs| ==> nbrs[j].0 != d
    decreases |nbrs|
  {
    if |nbrs| == 0 then -1
    else if nbrs[|nbrs| - 1].0 == d then |nbrs| - 1
    else FindKey(nbrs[..|nbrs| - 1], d)
  }

  /** addNeighbour(d, w): a dictionary write. A neighbour already present keeps its place
      and takes the new weight; a new one goes last. */
  function SetNeighbour(nbrs: Nbrs, d: int, w: int): Nbrs
  {
    var k := FindKey(nbrs, d);
    if k >= 0 then nbrs[k := (d, w)] else nbrs + [(d, w)]
  }

  /** The write is the dictionary update, and keeps the keys distinct. */
  lemma SetNeighbourMap(nbrs: Nbrs, d: int, w: int)
    requires KeysDistinct(nbrs)
    ensures KeysDistinct(SetNeighbour(nbrs, d, w))
    ensures AsMap(SetNeighbour(nbrs, d, w)) == AsMap(nbrs)[d := w]
  {
    var k := FindKey(nbrs, d);
    if k >= 0 {
      ReplaceMap(nbrs, k, w);
    } else {
      AppendMap(nbrs, d, w);
    }
  }

  lemma {:induction false} ReplaceMap(nbrs: Nbrs, k: int, w: int)
    requires KeysDistinct(nbrs) && 0 <= k < |nbrs|
    ensures AsMap(nbrs[k := (nbrs[k].0, w)]) == AsMap(nbrs)[nbrs[k].0 := w]
    decreases |nbrs|
  {
    var r := nbrs[k := (nbrs[k].0, w)];
    if k == 0 {
      assert r[1..] == nbrs[1..];
      AsMapKeys(nbrs[1..]);
    } else {
      assert r[1..] == nbrs[1..][k - 1 := (nbrs[k].0, w)];
      ReplaceMap(nbrs[1..], k - 1, w);
    }
  }

  lemma {:induction false} AppendMap(nbrs: Nbrs, d: int, w: int)
    requires forall j :: 0 <= j < |nbrs| ==> nbrs[j].0 != d
    ensures AsMap(nbrs + [(d, w)]) == AsMap(nbrs)[d := w]
    decreases |nbrs|
  {
    if |nbrs| > 0 {
      assert (nbrs + [(d, w)])[1..] == nbrs[1..] + [(d, w)];
      AppendMap(nbrs[1..], d, w);
    }
  }

  /** Vertex.getEdges: the edges out of u, in its dictionary's order. */
  function OutEdges(u: int, nbrs: Nbrs): (r: seq<Edge>)
    ensures |r| == |nbrs|
    ensures forall k :: 0 <= k < |nbrs| ==> r[k] == Edge(u, nbrs[k].0, nbrs[k].1)
  {
    seq(|nbrs|, k requires 0 <= k < |nbrs| => Edge(u, nbrs[k].0, nbrs[k].1))
  }

  /** Graph.getEdges: every vertex's edges, vertices in insertion order. */
  function Edges(order: seq<int>, adj: map<int, Nbrs>): seq<Edge>
    requires forall i :: 0 <= i < |order| ==> order[i] in adj
  {
    if |order| == 0 then []
    else
      var u := order[|order| - 1];
      Edges(order[..|order| - 1], adj) + OutEdges(u, adj[u])
  }

  /** getEdges lists exactly the pairs of the dictionaries. */
  lemma {:induction false} EdgesMember(order: seq<int>, adj: map<int, Nbrs>)
    requires forall i :: 0 <= i < |order| ==> order[i] in adj
    ensures forall e :: e in Edges(order, adj) <==> e.s in order && (e.d, e.w) in adj[e.s]
  {
    if |order| > 0 {
      var u := order[|order| - 1];
      EdgesMember(order[..|order| - 1], adj);
      forall e: Edge | e in OutEdges(u, adj[u]) ensures e.s == u && (e.d, e.w) in adj[u] {
        var k :| 0 <= k < |adj[u]| && OutEdges(u, adj[u])[k] == e;
      }
      forall e: Edge | e.s == u && (e.d, e.w) in adj[u] ensures e in OutEdges(u, adj[u]) {
        var k :| 0 <= k < |adj[u]| && adj[u][k] == (e.d, e.w);
        assert OutEdges(u, adj[u])[k] == e;
      }
      assert order == order[..|order| - 1] + [u];
    }
  }

  /** The dictionaries are consistent: distinct ids, one vertex per id, distinct
      neighbours per vertex, and every neighbour a vertex. */
  ghost predicate Wf(order: seq<int>, adj: map<int, Nbrs>)
  {
    (forall i, j :: 0 <= i < j < |order| ==> order[i] != order[j])
    && (forall i :: 0 <= i < |order| ==> order[i] in adj)
    && (forall u :: u in adj <==> u in order)
    && (forall u :: u in adj ==> KeysDistinct(adj[u]))
    && (forall u, k :: u in adj && 0 <= k < |adj[u]| ==> adj[u][k].0 in adj)
  }

  /** Vertex.updateEdge for every vertex: weight w of u -> d becomes
      w + weights[u] - weights[d]. */
  function ReweightNbrs(u: int, nbrs: Nbrs, weights: seq<int>): (r: Nbrs)
    requires VertexIdsBelow(u, nbrs, |weights|)
    ensures |r| == |nbrs|
    ensures forall k :: 0 <= k < |nbrs| ==> r[k] == (nbrs[k].0, nbrs[k].1 + weights[u] - weights[nbrs[k].0])
  {
    seq(|nbrs|, k requires 0 <= k < |nbrs| => (nbrs[k].0, nbrs[k].1 + weights[u] - weights[nbrs[k].0]))
  }

  /** u and its neighbours index a list of length n. */
  ghost predicate VertexIdsBelow(u: int, nbrs: Nbrs, n: int)
  {
    0 <= u < n && forall k :: 0 <= k < |nbrs| ==> 0 <= nbrs[k].0 < n
  }

  /** Every id in the graph indexes the weight list. */
  ghost predicate IdsBelow(adj: map<int, Nbrs>, n: int)
  {
    forall u :: u in adj ==> VertexIdsBelow(u, adj[u], n)
  }

  function Reweighted(adj: map<int, Nbrs>, weights: seq<int>): map<int, Nbrs>
    requires IdsBelow(adj, |weights|)
  {
    map u | u in adj :: ReweightNbrs(u, adj[u], weights)
  }

  /** An edge of the graph after updateEdges. */
  function ReweightEdge(e: Edge, weights: seq<int>): Edge
    requires 0 <= e.s < |weights| && 0 <= e.d < |weights|
  {
    Edge(e.s, e.d, e.w + weights[e.s] - weights[e.d])
  }

  lemma {:induction false} EdgesBelow(order: seq<int>, adj: map<int, Nbrs>, n: int)
    requires IdsBelow(adj, n) && forall i :: 0 <= i < |order| ==> order[i] in adj
    ensures VerticesIn(Edges(order, adj), 0, n)
  {
    if |order| > 0 {
      EdgesBelow(order[..|order| - 1], adj, n);
    }
  }

  /** The edges after updateEdges are the edges before, reweighted, in the same order. */
  lemma {:induction false} ReweightedEdges(order: seq<int>, adj: map<int, Nbrs>, weights: seq<int>)
    requires IdsBelow(adj, |weights|) && forall i :: 0 <= i < |order| ==> order[i] in adj
    ensures VerticesIn(Edges(order, adj), 0, |weights|)
    ensures var r := Edges(order, Reweighted(adj, weights));
      var e := Edges(order, adj);
      |r| == |e| && forall i :: 0 <= i < |e| ==> r[i] == ReweightEdge(e[i], weights)
  {
    EdgesBelow(order, adj, |weights|);
    if |order| > 0 {
      var pre := order[..|order| - 1];
      var u := order[|order| - 1];
      var radj := Reweighted(adj, weights);
      ReweightedEdges(pre, adj, weights);
      var r0: seq<Edge>, e0: seq<Edge> := Edges(pre, radj), Edges(pre, adj);
      var ro: seq<Edge>, eo: seq<Edge> := OutEdges(u, radj[u]), OutEdges(u, adj[u]);
      assert Edges(order, radj) == r0 + ro && Edges(order, adj) == e0 + eo;
      forall i | 0 <= i < |e0| + |eo|
        ensures (r0 + ro)[i] == ReweightEdge((e0 + eo)[i], weights)
      {
        if i >= |e0| {
          var k := i - |e0|;
          assert (r0 + ro)[i] == ro[k] && (e0 + eo)[i] == eo[k];
          assert radj[u][k] == (adj[u][k].0, adj[u][k].1 + weights[u] - weights[adj[u][k].0]);
        } else {
          assert (r0 + ro)[i] == r0[i] && (e0 + eo)[i] == e0[i];
        }
      }
    }
  }

  lemma WfSetNeighbour(order: seq<int>, adj: map<int, Nbrs>, s: int, d: int, w: int)
    requires Wf(order, adj) && s in adj && d in adj
    ensures Wf(order, adj[s := SetNeighbour(adj[s], d, w)])
  {
    var nbrs := SetNeighbour(adj[s], d, w);
    SetNeighbourMap(adj[s], d, w);
    var adj': map<int, Nbrs> := adj[s := nbrs];
    forall u: int, k: int | u in adj' && 0 <= k < |adj'[u]| ensures adj'[u][k].0 in adj' {
      if u == s && nbrs[k].0 != d {
        assert k < |adj[s]| && nbrs[k] == adj[s][k];
      }
    }
  }

  lemma WfReweighted(order: seq<int>, adj: map<int, Nbrs>, weights: seq<int>)
    requires Wf(order, adj) && IdsBelow(adj, |weights|)
    ensures Wf(order, Reweighted(adj, weights))
  {
    var adj' := Reweighted(adj, weights);
    forall u | u in adj' ensures KeysDistinct(adj'[u]) {
      assert KeysDistinct(adj[u]);
    }
  }

  /** Vertex.updateEdge: connectedTo[d] += weights[u] - weights[d] for every neighbour d. */
  method UpdateEdge(u: int, nbrs0: Nbrs, weights: seq<int>) returns (nbrs: Nbrs)
    requires VertexIdsBelow(u, nbrs0, |weights|)
    ensures nbrs == ReweightNbrs(u, nbrs0, weights)
  {
    nbrs := nbrs0;
    var k := 0;
    while k < |nbrs|
      invariant 0 <= k <= |nbrs| == |nbrs0|
      invariant forall t :: 0 <= t < k ==> nbrs[t] == (nbrs0[t].0, nbrs0[t].1 + weights[u] - weights[nbrs0[t].0])
      invariant forall t :: k <= t < |nbrs| ==> nbrs[t] == nbrs0[t]
    {
      var d := nbrs[k].0;
      nbrs := nbrs[k := (d, nbrs[k].1 + weights[u] - weights[d])];
      k := k + 1;
    }
  }

  /** The map after the vertices of done, in that order, have been reweighted. */
  function ReweightedIn(adj: map<int, Nbrs>, weights: seq<int>, done: seq<int>): (r: map<int, Nbrs>)
    requires IdsBelow(adj, |weights|) && forall i :: 0 <= i < |done| ==> done[i] in adj
    ensures r.Keys == adj.Keys
  {
    if |done| == 0 then adj
    else
      var v := done[|done| - 1];
      ReweightedIn(adj, weights, done[..|done| - 1])[v := ReweightNbrs(v, adj[v], weights)]
  }

  /** Reweighting the vertices one at a time, each once, reweights them all. */
  lemma {:induction false} ReweightedInAll(adj: map<int, Nbrs>, weights: seq<int>, done: seq<int>)
    requires IdsBelow(adj, |weights|) && forall i :: 0 <= i < |done| ==> done[i] in adj
    requires forall i, j :: 0 <= i < j < |done| ==> done[i] != done[j]
    ensures forall u :: u in adj ==> (ReweightedIn(adj, weights, done)[u]
      == if u in done then ReweightNbrs(u, adj[u], weights) else adj[u])
  {
    if |done| > 0 {
      var v := done[|done| - 1];
      ReweightedInAll(adj, weights, done[..|done| - 1]);
      assert done == done[..|done| - 1] + [v];
    }
  }

  /** order lists every vertex of adj exactly once. */
  ghost predicate ListsOnce(order: seq<int>, adj: map<int, Nbrs>)
  {
    (forall i :: 0 <= i < |order| ==> order[i] in adj)
    && (forall i, j :: 0 <= i < j < |order| ==> order[i] != order[j])
    && (forall u :: u in adj ==> u in order)
  }

  lemma ReweightedInFull(adj: map<int, Nbrs>, weights: seq<int>, order: seq<int>)
    requires IdsBelow(adj, |weights|) && ListsOnce(order, adj)
    ensures ReweightedIn(adj, weights, order) == Reweighted(adj, weights)
  {
    ReweightedInAll(adj, weights, order);
  }

  /** The loop of Graph.updateEdges: every vertex in insertion order. */
  method UpdateAll(order: seq<int>, adj0: map<int, Nbrs>, weights: seq<int>) returns (adj: map<int, Nbrs>)
    requires ListsOnce(order, adj0) && IdsBelow(adj0, |weights|)
    ensures adj == Reweighted(adj0, weights)
  {
    adj := adj0;
    var i := 0;
    assert forall i :: 0 <= i < |order| ==> order[i] in adj0;
    while i < |order|
      invariant 0 <= i <= |order|
      invariant adj == ReweightedIn(adj0, weights, order[..i])
    {
      var v := order[i];
      var nbrs := UpdateEdge(v, adj0[v], weights);
      assert order[..i + 1][..i] == order[..i];
      adj := adj[v := nbrs];
      i := i + 1;
    }
    assert order[..|order|] == order;
    ReweightedInFull(adj0, weights, order);
  }

  class Graph {
    var order: seq<int>
    var adj: map<int, Nbrs>

    ghost predicate Valid()
      reads this
    {
      Wf(order, adj)
    }

    constructor()
      ensures order == [] && adj == map[] && Valid()
    {
      order := [];
      adj := map[];
    }

    method AddVertex(key: int)
      requires Valid()
      modifies this
      ensures Valid()
      ensures key in old(adj) ==> order == old(order) && adj == old(adj)
      ensures key !in old(adj) ==> order == old(order) + [key] && adj == old(adj)[key := []]
    {
      if key !in adj {
        order := order + [key];
        adj := adj[key := []];
      }
    }

    /** Adds the missing endpoints, then writes d's weight into s's dictionary. */
    method AddEdge(source: int, dest: int, weight: int)
      requires Valid()
      modifies this
      ensures Valid()
      ensures order == old(order) + (if source in old(adj) then [] else [source])
        + (if dest in old(adj) || dest == source then [] else [dest])
      ensures adj.Keys == old(adj).Keys + {source, dest}
      ensures adj[source] == SetNeighbour(if source in old(adj) then old(adj)[source] else [], dest, weight)
      ensures forall u :: u in adj && u != source ==> adj[u] == (if u in old(adj) then old(adj)[u] else [])
    {
      AddVertex(source);
      AddVertex(dest);
      WfSetNeighbour(order, adj, source, dest, weight);
      adj := adj[source := SetNeighbour(adj[source], dest, weight)];
    }

    method GetEdges() returns (edges: seq<Edge>)
      requires Valid()
      ensures edges == Edges(order, adj)
    {
      edges := [];
      var i := 0;
      while i < |order|
        invariant 0 <= i <= |order|
        invariant edges == Edges(order[..i], adj)
      {
        var v := order[i];
        assert order[..i + 1][..i] == order[..i];
        edges := edges + OutEdges(v, adj[v]);
        i := i + 1;
      }
      assert order[..|order|] == order;
    }

    /** Vertex.updateEdge for every vertex. */
    method UpdateEdges(weights: seq<int>)
      requires Valid() && IdsBelow(adj, |weights|)
      modifies this
      ensures order == old(order) && adj == Reweighted(old(adj), weights) && Valid()
    {
      adj := UpdateAll(order, adj, weights);
      WfReweighted(order, old(adj), weights);
    }
  }
}
