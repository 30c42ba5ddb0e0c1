/** Why the Dijkstra loop of the shortest-path programs is right: the invariant of the
    loop that extracts the vertex of least key and relaxes its edges, and one lemma per
    step of that loop. The loops themselves are in DijkstraMinHeap and Johnson. */
module DijkstraSearch {
  import opened ExtInt
  import opened Walks
  import opened IndexedHeap
  import opened VertexGraph

  /** E lists exactly the edges of the adjacency dictionaries. */
  ghost predicate EdgesOf(E: seq<Edge>, adj: map<int, Nbrs>)
  {
    forall e :: e in E <==> e.s in adj && (e.d, e.w) in adj[e.s]
  }

  ghost predicate NonNegative(E: seq<Edge>)
  {
    forall i :: 0 <= i < |E| ==> E[i].w >= 0
  }

  /** The graph Dijkstra runs on: every neighbour a vertex, src a vertex, no negative
      edge. */
  ghost predicate SearchGraph(E: seq<Edge>, adj: map<int, Nbrs>, src: int)
  {
    EdgesOf(E, adj) && NonNegative(E) && src in adj
    && (forall u, k :: u in adj && 0 <= k < |adj[u]| ==> adj[u][k].0 in adj)
  }

  /** The heap holds exactly the vertices not yet extracted, each keyed by its current
      distance, and no key is below the last one extracted. */
  ghost predicate Queue(adj: map<int, Nbrs>, h: seq<Entry>, pos: map<int, int>, dist: map<int, ExtInt>,
                        S: set<int>, last: ExtInt)
  {
    PosOk(h, pos) && HeapOrder(h)
    && (forall e :: e in Contents(h) ==> e.v in adj && e.v !in S && e.v in dist && e.key == dist[e.v] && Le(last, e.key))
    && adj.Keys == S + VertsOf(Contents(h))
  }

  /** Every distance is the length of some walk from src (or infinite), and src's is at
      most 0. */
  ghost predicate Sound(E: seq<Edge>, adj: map<int, Nbrs>, src: int, dist: map<int, ExtInt>)
  {
    adj.Keys <= dist.Keys && src in dist && Le(dist[src], Finite(0))
    && forall v :: v in adj ==> Attained(E, src, v, dist[v])
  }

  /** The distance of every extracted vertex is no more than the length of any walk. */
  ghost predicate Settled(E: seq<Edge>, src: int, dist: map<int, ExtInt>, S: set<int>)
  {
    forall x :: x in S ==> x in dist && Below(E, src, x, dist[x])
  }

  /** The k-th edge out of x cannot improve the distance of its end. */
  ghost predicate EdgeRelaxed(adj: map<int, Nbrs>, dist: map<int, ExtInt>, x: int, k: int)
  {
    x in adj && 0 <= k < |adj[x]| && x in dist && adj[x][k].0 in dist
    && Le(dist[adj[x][k].0], Add(dist[x], Finite(adj[x][k].1)))
  }

  ghost predicate RelaxedAll(adj: map<int, Nbrs>, dist: map<int, ExtInt>, T: set<int>)
  {
    forall x, k :: x in T && x in adj && 0 <= k < |adj[x]| ==> EdgeRelaxed(adj, dist, x, k)
  }

  ghost predicate RelaxedUpTo(adj: map<int, Nbrs>, dist: map<int, ExtInt>, u: int, j: int)
  {
    forall k :: 0 <= k < j ==> EdgeRelaxed(adj, dist, u, k)
  }

  /** The invariant of the outer loop (while minHeap.currentSize). */
  ghost predicate Inv(E: seq<Edge>, adj: map<int, Nbrs>, src: int, h: seq<Entry>, pos: map<int, int>,
                      dist: map<int, ExtInt>, S: set<int>, last: ExtInt)
  {
    Queue(adj, h, pos, dist, S, last) && Sound(E, adj, src, dist) && Settled(E, src, dist, S)
    && RelaxedAll(adj, dist, S)
  }

  /** The invariant of the inner loop over u's edges, j of them done; u was extracted with
      key last. */
  ghost predicate Mid(E: seq<Edge>, adj: map<int, Nbrs>, src: int, u: int, j: int, h: seq<Entry>,
                      pos: map<int, int>, dist: map<int, ExtInt>, S: set<int>, last: ExtInt)
  {
    Queue(adj, h, pos, dist, S, last) && Sound(E, adj, src, dist) && Settled(E, src, dist, S)
    && u in S && u in adj && dist[u] == last && 0 <= j <= |adj[u]|
    && RelaxedAll(adj, dist, S - {u}) && RelaxedUpTo(adj, dist, u, j)
  }

  // Facts about walks.

  /** With no negative edge, no walk is negative. */
  lemma {:induction false} WeightNonNegative(E: seq<Edge>, p: seq<Edge>)
    requires NonNegative(E) && forall i :: 0 <= i < |p| ==> p[i] in E
    ensures Weight(p) >= 0
    decreases |p|
  {
    if p != [] {
      var k :| 0 <= k < |E| && E[k] == p[|p| - 1];
      WeightNonNegative(E, p[..|p| - 1]);
    }
  }

  /** The first vertex of a walk that is not in S, when its end is not. */
  lemma FirstOutside(src: int, p: seq<Edge>, S: set<int>) returns (j: int)
    requires At(src, p, |p|) !in S
    ensures 0 <= j <= |p| && At(src, p, j) !in S
    ensures forall i :: 0 <= i < j ==> At(src, p, i) in S
  {
    j := 0;
    while At(src, p, j) in S
      invariant 0 <= j <= |p|
      invariant forall i :: 0 <= i < j ==> At(src, p, i) in S
      decreases |p| - j
    {
      j := j + 1;
    }
  }

  lemma BelowWalk(E: seq<Edge>, src: int, x: int, dx: ExtInt, q: seq<Edge>)
    requires Below(E, src, x, dx) && IsWalk(E, q, src, x)
    ensures Le(dx, Finite(Weight(q)))
  {
  }

  /** An edge out of a vertex whose edges are all relaxed does not improve its end. */
  lemma RelaxedEdge(E: seq<Edge>, adj: map<int, Nbrs>, dist: map<int, ExtInt>, S: set<int>, e: Edge)
    requires EdgesOf(E, adj) && RelaxedAll(adj, dist, S) && e in E && e.s in S
    ensures e.s in dist && e.d in dist && Le(dist[e.d], Add(dist[e.s], Finite(e.w)))
  {
    var k :| 0 <= k < |adj[e.s]| && adj[e.s][k] == (e.d, e.w);
    assert EdgeRelaxed(adj, dist, e.s, k);
  }

  /** The first j edges of p weigh the first j - 1 and the j-th. */
  lemma WeightPrefix(p: seq<Edge>, j: int)
    requires 0 < j <= |p|
    ensures Weight(p[..j]) == Weight(p[..j - 1]) + p[j - 1].w
  {
    assert p[..j][..j - 1] == p[..j - 1];
  }

  /** The first edges of a walk from src, up to the first vertex y outside S, are no
      shorter than y's distance. */
  lemma PrefixBound(E: seq<Edge>, adj: map<int, Nbrs>, src: int, dist: map<int, ExtInt>, S: set<int>,
                    p: seq<Edge>, v: int, j: int)
    requires EdgesOf(E, adj) && src in dist && Le(dist[src], Finite(0)) && Settled(E, src, dist, S)
    requires RelaxedAll(adj, dist, S) && IsWalk(E, p, src, v)
    requires 0 <= j <= |p| && (j > 0 ==> At(src, p, j - 1) in S)
    ensures At(src, p, j) in dist && Le(dist[At(src, p, j)], Finite(Weight(p[..j])))
  {
    if j == 0 {
      assert p[..0] == [];
    } else {
      var x := At(src, p, j - 1);
      var e := p[j - 1];
      WalkPrefix(E, p, src, v, j - 1);
      BelowWalk(E, src, x, dist[x], p[..j - 1]);
      RelaxedEdge(E, adj, dist, S, e);
      WeightPrefix(p, j);
    }
  }

  /** A walk from src to a vertex outside S is no shorter than dv, when dv is at most
      the distance of every vertex outside S. */
  lemma WalkNotShorter(E: seq<Edge>, adj: map<int, Nbrs>, src: int, dist: map<int, ExtInt>, S: set<int>,
                       p: seq<Edge>, v: int, dv: ExtInt)
    requires SearchGraph(E, adj, src) && src in dist && Le(dist[src], Finite(0))
    requires Settled(E, src, dist, S) && RelaxedAll(adj, dist, S)
    requires IsWalk(E, p, src, v) && v !in S
    requires forall y :: y in adj && y !in S ==> y in dist && Le(dv, dist[y])
    ensures Le(dv, Finite(Weight(p)))
  {
    var j := FirstOutside(src, p, S);
    PrefixBound(E, adj, src, dist, S, p, v, j);
    AtInGraph(E, adj, src, p, v, j);
    TailWeight(E, p, j);
  }

  /** Every vertex a walk from src passes is a vertex of the graph. */
  lemma AtInGraph(E: seq<Edge>, adj: map<int, Nbrs>, src: int, p: seq<Edge>, v: int, j: int)
    requires SearchGraph(E, adj, src) && IsWalk(E, p, src, v) && 0 <= j <= |p|
    ensures At(src, p, j) in adj
  {
    if j > 0 {
      var e := p[j - 1];
      assert e in E;
      var k :| 0 <= k < |adj[e.s]| && adj[e.s][k] == (e.d, e.w);
    }
  }

  /** With no negative edge, a walk weighs at least as much as any of its prefixes. */
  lemma TailWeight(E: seq<Edge>, p: seq<Edge>, j: int)
    requires NonNegative(E) && (forall i :: 0 <= i < |p| ==> p[i] in E) && 0 <= j <= |p|
    ensures Weight(p[..j]) <= Weight(p)
  {
    var t := p[j..];
    forall i | 0 <= i < |t| ensures t[i] in E {
      assert t[i] == p[j + i];
    }
    WeightNonNegative(E, t);
    assert p == p[..j] + t;
    WeightAppend(p[..j], t);
  }

  /** Extracting a vertex of least key from the heap: its distance is the shortest. */
  lemma ExtractedShortest(E: seq<Edge>, adj: map<int, Nbrs>, src: int, h: seq<Entry>, pos: map<int, int>,
                          dist: map<int, ExtInt>, S: set<int>, last: ExtInt, r: Entry)
    requires SearchGraph(E, adj, src) && Inv(E, adj, src, h, pos, dist, S, last)
    requires r in Contents(h) && forall e :: e in Contents(h) ==> Le(r.key, e.key)
    ensures Shortest(E, src, r.v, dist[r.v])
  {
    forall y | y in adj && y !in S ensures y in dist && Le(r.key, dist[y]) {
      assert y in VertsOf(Contents(h));
      var e :| e in Contents(h) && e.v == y;
    }
    forall p | IsWalk(E, p, src, r.v) ensures Le(dist[r.v], Finite(Weight(p))) {
      WalkNotShorter(E, adj, src, dist, S, p, r.v, r.key);
    }
  }

  // The steps of the loops.

  /** The state after the initial entries and changeDistance(src, 0). */
  lemma Initial(E: seq<Edge>, adj: map<int, Nbrs>, src: int, h: seq<Entry>, pos: map<int, int>,
                dist: map<int, ExtInt>)
    requires SearchGraph(E, adj, src) && PosOk(h, pos)
    requires forall k :: 1 <= k < |h| ==> h[k].key == Inf && h[k].v in adj
    requires VertsOf(Contents(h)) == adj.Keys
    requires adj.Keys <= dist.Keys && forall v :: v in adj ==> dist[v] == Inf
    ensures src in pos && 1 <= pos[src] < |h| && h[pos[src]].v == src
    ensures var (h', pos') := ChangeKeyOf(h, pos, src, Finite(0));
      Inv(E, adj, src, h', pos', dist[src := Finite(0)], {}, Finite(0))
  {
    var e :| e in Contents(h) && e.v == src;
    PosEntry(h, pos, e);
    InitialQueue(adj, h, pos, dist, src);
    EmptyWalk(E, src);
    assert Sound(E, adj, src, dist[src := Finite(0)]);
  }

  /** The heap of initial entries, all infinite, with src's key lowered to 0. */
  lemma InitialQueue(adj: map<int, Nbrs>, h: seq<Entry>, pos: map<int, int>, dist: map<int, ExtInt>, src: int)
    requires PosOk(h, pos) && src in pos && 1 <= pos[src] < |h| && h[pos[src]].v == src
    requires forall k :: 1 <= k < |h| ==> h[k].key == Inf && h[k].v in adj
    requires VertsOf(Contents(h)) == adj.Keys
    requires adj.Keys <= dist.Keys && forall v :: v in adj ==> dist[v] == Inf
    ensures var (h', pos') := ChangeKeyOf(h, pos, src, Finite(0));
      Queue(adj, h', pos', dist[src := Finite(0)], {}, Finite(0))
  {
    var (h', pos') := ChangeKeyOf(h, pos, src, Finite(0));
    var dist' := dist[src := Finite(0)];
    EqualKeysOrdered(h, Inf);
    ChangeKeySpec(h, pos, src, Finite(0));
    forall f | f in Contents(h) ensures f.key == Inf && f.v in adj {
      var k :| 0 <= k < |h[1..]| && h[1..][k] == f;
      assert h[k + 1] == f;
    }
    ChangedEntries(h, pos, h', pos', src, Finite(0));
    forall f | f in Contents(h') ensures f.v in adj && f.v in dist' && f.key == dist'[f.v] && Le(Finite(0), f.key) {
      if f.v != src {
        assert f in Contents(h);
      }
    }
  }

  /** What changeDistance(y, d) leaves in a heap whose position map is right: y's entry
      now has key d, every other entry is unchanged, and the same vertices are in it. */
  lemma ChangedEntries(h: seq<Entry>, pos: map<int, int>, h': seq<Entry>, pos': map<int, int>, y: int, d: ExtInt)
    requires PosOk(h, pos) && y in pos && 1 <= pos[y] < |h| && h[pos[y]].v == y
    requires (h', pos') == ChangeKeyOf(h, pos, y, d)
    ensures PosOk(h', pos')
    ensures forall f :: f in Contents(h') ==> (if f.v == y then f == Entry(y, d) else f in Contents(h))
    ensures VertsOf(Contents(h')) == VertsOf(Contents(h))
  {
    ChangeKeySpec(h, pos, y, d);
    var o, n := h[pos[y]], Entry(y, d);
    var M, M' := Contents(h), Contents(h');
    assert h[1..][pos[y] - 1] == o;
    assert M' + multiset{o} == M + multiset{n};
    assert n in M' by {
      assert o in M;
      assert (M' + multiset{o})[n] == (M + multiset{n})[n];
    }
    forall f | f in M' ensures if f.v == y then f == n else f in M {
      if f.v == y {
        PosEntry(h', pos', f);
        PosEntry(h', pos', n);
      } else {
        assert (M' + multiset{o})[f] == (M + multiset{n})[f];
      }
    }
    forall v | v in VertsOf(M) ensures v in VertsOf(M') {
      var f :| f in M && f.v == v;
      if v != y {
        assert (M' + multiset{o})[f] == (M + multiset{n})[f];
        assert f in M';
      }
    }
  }

  /** delMin: the extracted vertex is settled with the shortest distance, and the inner
      loop starts. */
  lemma Extract(E: seq<Edge>, adj: map<int, Nbrs>, src: int, h: seq<Entry>, pos: map<int, int>,
                dist: map<int, ExtInt>, S: set<int>, last: ExtInt)
    requires SearchGraph(E, adj, src) && Inv(E, adj, src, h, pos, dist, S, last) && |h| >= 2
    ensures var (r, h', pos') := DelMinOf(h, pos);
      && r.v !in S && r.v in dist && r.key == dist[r.v] && Le(last, r.key)
      && Shortest(E, src, r.v, dist[r.v])
      && Mid(E, adj, src, r.v, 0, h', pos', dist, S + {r.v}, r.key)
  {
    var (r, h', pos') := DelMinOf(h, pos);
    DelMinSpec(h, pos);
    ExtractedShortest(E, adj, src, h, pos, dist, S, last, r);
    QueueExtracted(adj, h, pos, dist, S, last);
    assert (S + {r.v}) - {r.v} == S;
  }

  /** delMin moves the vertex of least key from the heap to S, and makes its key the
      least one a later extraction can see. */
  lemma QueueExtracted(adj: map<int, Nbrs>, h: seq<Entry>, pos: map<int, int>, dist: map<int, ExtInt>,
                       S: set<int>, last: ExtInt)
    requires Queue(adj, h, pos, dist, S, last) && |h| >= 2
    ensures var (r, h', pos') := DelMinOf(h, pos);
      && r in Contents(h) && (forall e :: e in Contents(h) ==> Le(r.key, e.key))
      && Queue(adj, h', pos', dist, S + {r.v}, r.key)
  {
    var (r, h', pos') := DelMinOf(h, pos);
    DelMinSpec(h, pos);
    var S' := S + {r.v};
    forall e | e in Contents(h') ensures e.v in adj && e.v !in S' && e.v in dist && e.key == dist[e.v] && Le(r.key, e.key) {
      assert e in Contents(h);
    }
    assert adj.Keys == S' + VertsOf(Contents(h')) by {
      forall v | v in VertsOf(Contents(h)) ensures v in S' + VertsOf(Contents(h')) {
        var e :| e in Contents(h) && e.v == v;
        if e != r {
          assert e in Contents(h');
        }
      }
      forall v | v in VertsOf(Contents(h')) ensures v in VertsOf(Contents(h)) {
        var e :| e in Contents(h') && e.v == v;
        assert e in Contents(h);
      }
    }
  }

  /** y is reached from an extracted vertex by a shorter walk than dist[y], so y cannot
      be extracted itself: the relaxation happens for a vertex still in the heap. */
  lemma RelaxTarget(E: seq<Edge>, adj: map<int, Nbrs>, src: int, u: int, j: int, h: seq<Entry>,
                    pos: map<int, int>, dist: map<int, ExtInt>, S: set<int>, last: ExtInt)
    requires SearchGraph(E, adj, src) && Mid(E, adj, src, u, j, h, pos, dist, S, last) && j < |adj[u]|
    requires adj[u][j].0 in dist && Lt(Add(dist[u], Finite(adj[u][j].1)), dist[adj[u][j].0])
    ensures var y := adj[u][j].0;
      && y !in S && y in pos && 1 <= pos[y] < |h| && h[pos[y]].v == y && h[pos[y]].key == dist[y]
      && IsWalkTo(E, src, y, Add(dist[u], Finite(adj[u][j].1)).n)
  {
    var (y, w) := adj[u][j];
    var nd := Add(dist[u], Finite(w));
    assert Attained(E, src, u, dist[u]);
    var q :| IsWalk(E, q, src, u) && Weight(q) == dist[u].n;
    assert Edge(u, y, w) in E;
    WalkSnoc(E, q, src, u, Edge(u, y, w));
    NotSettled(E, src, dist, S, y, q + [Edge(u, y, w)]);
    InQueue(adj, h, pos, dist, S, last, y);
  }

  /** A vertex with a walk shorter than its distance is not settled. */
  lemma NotSettled(E: seq<Edge>, src: int, dist: map<int, ExtInt>, S: set<int>, y: int, q: seq<Edge>)
    requires Settled(E, src, dist, S) && IsWalk(E, q, src, y) && y in dist && Lt(Finite(Weight(q)), dist[y])
    ensures y !in S
  {
    if y in S {
      BelowWalk(E, src, y, dist[y], q);
      assert false;
    }
  }

  /** A vertex of the graph not yet extracted is in the heap, at the index pos gives it,
      keyed by its distance. */
  lemma InQueue(adj: map<int, Nbrs>, h: seq<Entry>, pos: map<int, int>, dist: map<int, ExtInt>,
                S: set<int>, last: ExtInt, y: int)
    requires Queue(adj, h, pos, dist, S, last) && y in adj && y !in S
    ensures y in pos && 1 <= pos[y] < |h| && h[pos[y]].v == y && y in dist && h[pos[y]].key == dist[y]
  {
    assert y in VertsOf(Contents(h));
    var e :| e in Contents(h) && e.v == y;
    PosEntry(h, pos, e);
  }

  /** Some walk from src to y has length n. */
  ghost predicate IsWalkTo(E: seq<Edge>, src: int, y: int, n: int)
  {
    exists p :: IsWalk(E, p, src, y) && Weight(p) == n
  }

  /** newDis < distances[nbr]: the distance and the heap key drop to dis + weight. */
  lemma RelaxFires(E: seq<Edge>, adj: map<int, Nbrs>, src: int, u: int, j: int, h: seq<Entry>,
                   pos: map<int, int>, dist: map<int, ExtInt>, S: set<int>, last: ExtInt)
    requires SearchGraph(E, adj, src) && Mid(E, adj, src, u, j, h, pos, dist, S, last) && j < |adj[u]|
    requires adj[u][j].0 in dist && Lt(Add(last, Finite(adj[u][j].1)), dist[adj[u][j].0])
    ensures var y := adj[u][j].0;
      y !in S && y in pos && 1 <= pos[y] < |h| && h[pos[y]].v == y
    ensures var (y, w) := adj[u][j];
      var nd := Add(last, Finite(w));
      var (h', pos') := ChangeKeyOf(h, pos, y, nd);
      Mid(E, adj, src, u, j + 1, h', pos', dist[y := nd], S, last)
  {
    var (y, w) := adj[u][j];
    var nd := Add(last, Finite(w));
    RelaxTarget(E, adj, src, u, j, h, pos, dist, S, last);
    assert Le(last, nd) by {
      assert Edge(u, y, w) in E;
      var i :| 0 <= i < |E| && E[i] == Edge(u, y, w);
    }
    QueueChanged(adj, h, pos, dist, S, last, y, nd);
    SoundChanged(E, adj, src, dist, y, nd);
    SettledChanged(E, src, dist, S, y, nd);
    RelaxedChanged(adj, dist, S - {u}, y, nd);
    RelaxedUpToChanged(adj, dist, u, j, y, nd);
  }

  /** Lowering the key of a vertex still in the heap, to no less than last, keeps the
      queue invariant. */
  lemma QueueChanged(adj: map<int, Nbrs>, h: seq<Entry>, pos: map<int, int>, dist: map<int, ExtInt>,
                     S: set<int>, last: ExtInt, y: int, nd: ExtInt)
    requires Queue(adj, h, pos, dist, S, last) && y in adj && y !in S
    requires y in pos && 1 <= pos[y] < |h| && h[pos[y]].v == y && h[pos[y]].key == dist[y]
    requires Le(last, nd) && Le(nd, dist[y])
    ensures var (h', pos') := ChangeKeyOf(h, pos, y, nd);
      Queue(adj, h', pos', dist[y := nd], S, last)
  {
    var (h', pos') := ChangeKeyOf(h, pos, y, nd);
    var dist' := dist[y := nd];
    ChangeKeySpec(h, pos, y, nd);
    ChangedEntries(h, pos, h', pos', y, nd);
    forall f | f in Contents(h') ensures f.v in adj && f.v !in S && f.v in dist' && f.key == dist'[f.v] && Le(last, f.key) {
    }
  }

  /** Giving a vertex the length of a walk to it, below its distance, keeps every distance
      attained. */
  lemma SoundChanged(E: seq<Edge>, adj: map<int, Nbrs>, src: int, dist: map<int, ExtInt>, y: int, nd: ExtInt)
    requires Sound(E, adj, src, dist) && y in dist && Lt(nd, dist[y]) && IsWalkTo(E, src, y, nd.n)
    ensures Sound(E, adj, src, dist[y := nd])
  {
  }

  lemma SettledChanged(E: seq<Edge>, src: int, dist: map<int, ExtInt>, S: set<int>, y: int, nd: ExtInt)
    requires Settled(E, src, dist, S) && y !in S
    ensures Settled(E, src, dist[y := nd], S)
  {
    forall x | x in S ensures x in dist[y := nd] && Below(E, src, x, dist[y := nd][x]) {
      assert dist[y := nd][x] == dist[x];
    }
  }

  /** Lowering the distance of a vertex outside T keeps T's edges relaxed. */
  lemma RelaxedChanged(adj: map<int, Nbrs>, dist: map<int, ExtInt>, T: set<int>, y: int, nd: ExtInt)
    requires RelaxedAll(adj, dist, T) && y !in T && y in dist && Le(nd, dist[y])
    ensures RelaxedAll(adj, dist[y := nd], T)
  {
    var dist' := dist[y := nd];
    forall x, k | x in T && x in adj && 0 <= k < |adj[x]| ensures EdgeRelaxed(adj, dist', x, k) {
      assert EdgeRelaxed(adj, dist, x, k);
    }
  }

  /** The first j edges of u stay relaxed, and the j-th one is relaxed by setting its end
      to dist[u] plus its length. */
  lemma RelaxedUpToChanged(adj: map<int, Nbrs>, dist: map<int, ExtInt>, u: int, j: int, y: int, nd: ExtInt)
    requires RelaxedUpTo(adj, dist, u, j) && u in adj && 0 <= j < |adj[u]| && u != y && u in dist
    requires adj[u][j].0 == y && y in dist && Le(nd, dist[y]) && nd == Add(dist[u], Finite(adj[u][j].1))
    ensures RelaxedUpTo(adj, dist[y := nd], u, j + 1)
  {
    var dist' := dist[y := nd];
    forall k | 0 <= k < j + 1 ensures EdgeRelaxed(adj, dist', u, k) {
      if k < j {
        assert EdgeRelaxed(adj, dist, u, k);
      }
    }
  }

  /** newDis >= distances[nbr]: nothing changes, and the edge is relaxed. */
  lemma RelaxSkips(E: seq<Edge>, adj: map<int, Nbrs>, src: int, u: int, j: int, h: seq<Entry>,
                   pos: map<int, int>, dist: map<int, ExtInt>, S: set<int>, last: ExtInt)
    requires SearchGraph(E, adj, src) && Mid(E, adj, src, u, j, h, pos, dist, S, last) && j < |adj[u]|
    requires adj[u][j].0 in dist && !Lt(Add(last, Finite(adj[u][j].1)), dist[adj[u][j].0])
    ensures Mid(E, adj, src, u, j + 1, h, pos, dist, S, last)
  {
    assert EdgeRelaxed(adj, dist, u, j);
  }

  /** All of u's edges are relaxed: back to the outer invariant. */
  lemma Relaxed(E: seq<Edge>, adj: map<int, Nbrs>, src: int, u: int, h: seq<Entry>,
                pos: map<int, int>, dist: map<int, ExtInt>, S: set<int>, last: ExtInt)
    requires u in adj && Mid(E, adj, src, u, |adj[u]|, h, pos, dist, S, last)
    ensures Inv(E, adj, src, h, pos, dist, S, last)
  {
    forall x, k | x in S && x in adj && 0 <= k < |adj[x]| ensures EdgeRelaxed(adj, dist, x, k) {
      if x != u {
        assert x in S - {u};
      }
    }
  }

  /** The heap is empty: every distance is the shortest. */
  lemma Done(E: seq<Edge>, adj: map<int, Nbrs>, src: int, h: seq<Entry>, pos: map<int, int>,
             dist: map<int, ExtInt>, S: set<int>, last: ExtInt)
    requires Inv(E, adj, src, h, pos, dist, S, last) && |h| == 1
    ensures forall v :: v in adj ==> v in dist && Shortest(E, src, v, dist[v])
  {
    assert Contents(h) == multiset{};
    assert VertsOf(Contents(h)) == {};
  }
}
