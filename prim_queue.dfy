/** Why the loop of minSpanningTreeHeap is a run of Prim's algorithm: the heap holds the
    vertices not yet seen, each keyed by its cheapest edge from the seen ones, so the
    vertex it extracts joins by a cheapest edge leaving them. Also MinHeap.update, the
    guarded decrease of a key, and MinHeap.insert as PrimSpanningTree.py writes it. */
module PrimQueue {
  import opened ExtInt
  import opened IndexedHeap
  import opened SpanningTrees
  import DS = DijkstraSearch

  /** update(v, d): the key of v becomes d only when d is smaller. */
  function UpdateOf(h: seq<Entry>, pos: map<int, int>, v: int, d: ExtInt): (r: (seq<Entry>, map<int, int>))
    requires v in pos && 1 <= pos[v] < |h|
    ensures |r.0| == |h|
  {
    if Lt(d, h[pos[v]].key) then ChangeKeyOf(h, pos, v, d) else (h, pos)
  }

  /** update on a vertex in the heap: its key becomes the smaller of the old key and d,
      nothing else changes, and heap order and the position map are kept. */
  lemma UpdateSpec(h: seq<Entry>, pos: map<int, int>, v: int, d: ExtInt)
    requires PosOk(h, pos) && HeapOrder(h) && v in pos && 1 <= pos[v] < |h| && h[pos[v]].v == v
    ensures var (h', pos') := UpdateOf(h, pos, v, d);
      && PosOk(h', pos') && HeapOrder(h')
      && (forall f :: f in Contents(h') ==> (if f.v == v then f == Entry(v, Min(h[pos[v]].key, d)) else f in Contents(h)))
      && VertsOf(Contents(h')) == VertsOf(Contents(h))
  {
    var (h', pos') := UpdateOf(h, pos, v, d);
    var o := h[pos[v]];
    if Lt(d, o.key) {
      ChangeKeySpec(h, pos, v, d);
      DS.ChangedEntries(h, pos, h', pos', v, d);
    } else {
      forall f | f in Contents(h) && f.v == v ensures f == o {
        PosEntry(h, pos, f);
      }
    }
  }

  /** MinHeap.insert as written (lines 64-70): the entry is appended and percolated up,
      and only then is the vertex's position set, to the last index. */
  function InsertAsWrittenOf(h: seq<Entry>, pos: map<int, int>, v: int, d: ExtInt): (r: (seq<Entry>, map<int, int>))
    requires |h| >= 1
    ensures |r.0| == |h| + 1
  {
    var s := SiftUp(h + [Entry(v, d)], pos, |h|);
    (s.0, s.1[v := |h|])
  }

  /** Inserting vertex 2 with key 3 into the heap holding vertex 1 with key 5 moves 2 to
      the root but records it at index 2, so the position map is wrong afterwards;
      IndexedHeap.InsertSpec shows that recording the position before percolating keeps
      it right. */
  lemma InsertAsWrittenMisplaces()
    ensures var h := [Placeholder, Entry(1, Finite(5))];
      var pos := map[1 := 1];
      && PosOk(h, pos) && HeapOrder(h)
      && !PosOk(InsertAsWrittenOf(h, pos, 2, Finite(3)).0, InsertAsWrittenOf(h, pos, 2, Finite(3)).1)
  {
    var h := [Placeholder, Entry(1, Finite(5))];
    var pos := map[1 := 1];
    var h1 := [Placeholder, Entry(2, Finite(3)), Entry(1, Finite(5))];
    var h0 := [Placeholder, Entry(1, Finite(5)), Entry(2, Finite(3))];
    assert h + [Entry(2, Finite(3))] == h0;
    assert Swap(h0, 1, 2) == h1;
    assert SiftUp(h0, pos, 2) == SiftUp(h1, pos[2 := 1][1 := 2], 1) == (h1, pos[2 := 1][1 := 2]);
    var r := InsertAsWrittenOf(h, pos, 2, Finite(3));
    assert r.0 == h1 && r.1[2] == 2 && h1[1].v == 2;
  }

  /** The key a vertex has in the heap: before anything is seen, 0 for start and inf for
      the others; afterwards its cheapest edge from the seen vertices. */
  function KeyOf(W: Weights, n: nat, start: int, seen: set<int>, v: int): ExtInt
  {
    if seen == {} then (if v == start then Finite(0) else Inf) else CrossMin(W, seen, v, n)
  }

  /** The invariant of the outer loop (while minHeap): exactly the vertices not yet seen are
      in the heap, each with its key. */
  ghost predicate Queue(W: Weights, n: nat, start: int, h: seq<Entry>, pos: map<int, int>, seen: set<int>)
  {
    PosOk(h, pos) && HeapOrder(h) && InRange(n, seen)
    && (forall e :: e in Contents(h) ==> 1 <= e.v <= n && e.v !in seen && e.key == KeyOf(W, n, start, seen, e.v))
    && (forall v :: 1 <= v <= n && v !in seen ==> v in VertsOf(Contents(h)))
  }

  /** The weight of the edge x - v once v's entry of x's dictionary has been offered. */
  function Through(W: Weights, x: int, done: set<int>, v: int): ExtInt
  {
    if v in done && HasEdge(W, x, v) then Finite(W[x][v]) else Inf
  }

  /** The invariant of the loop over x's edges, with the neighbours in done offered: every
      vertex not seen is keyed by its cheapest edge from the vertices seen before x, or from
      x through done. */
  ghost predicate Mid(W: Weights, n: nat, seen0: set<int>, x: int, done: set<int>, h: seq<Entry>, pos: map<int, int>)
  {
    var seen := seen0 + {x};
    PosOk(h, pos) && HeapOrder(h) && InRange(n, seen)
    && (forall e :: e in Contents(h) ==>
          1 <= e.v <= n && e.v !in seen && e.key == Min(CrossMin(W, seen0, e.v, n), Through(W, x, done, e.v)))
    && (forall v :: 1 <= v <= n && v !in seen ==> v in VertsOf(Contents(h)))
  }

  /** Every vertex 1 to n not seen has an entry in the heap, keyed by its cheapest edge. */
  lemma InQueue(W: Weights, n: nat, start: int, h: seq<Entry>, pos: map<int, int>, seen: set<int>, v: int)
    requires Queue(W, n, start, h, pos, seen) && 1 <= v <= n && v !in seen
    ensures v in pos && 1 <= pos[v] < |h| && h[pos[v]].v == v && h[pos[v]].key == KeyOf(W, n, start, seen, v)
  {
    var e :| e in Contents(h) && e.v == v;
    PosEntry(h, pos, e);
  }

  /** The heap __init__ builds: vertices 1 to n at indices 1 to n, all with key inf. */
  lemma InitialHeap(n: nat, h: seq<Entry>, pos: map<int, int>)
    requires |h| == n + 1
    requires forall k :: 1 <= k <= n ==> h[k] == Entry(k, Inf)
    requires forall v :: v in pos <==> 1 <= v <= n
    requires forall v :: v in pos ==> pos[v] == v
    ensures PosOk(h, pos) && HeapOrder(h)
    ensures forall f :: f in Contents(h) ==> 1 <= f.v <= n && f.key == Inf
    ensures forall v :: 1 <= v <= n ==> v in VertsOf(Contents(h))
  {
    EqualKeysOrdered(h, Inf);
    forall f | f in Contents(h) ensures 1 <= f.v <= n && f.key == Inf {
      var k :| 0 <= k < |h[1..]| && h[1..][k] == f;
      assert h[k + 1] == f;
    }
    forall v | 1 <= v <= n ensures v in VertsOf(Contents(h)) {
      assert h[1..][v - 1] == h[v];
    }
  }

  /** That heap, with start's key lowered to 0 by update(start, 0), is the state before the
      first round. */
  lemma Begin(W: Weights, n: nat, start: int, h: seq<Entry>, pos: map<int, int>)
    requires 1 <= start <= n && |h| == n + 1
    requires forall k :: 1 <= k <= n ==> h[k] == Entry(k, Inf)
    requires forall v :: v in pos <==> 1 <= v <= n
    requires forall v :: v in pos ==> pos[v] == v
    ensures start in pos && 1 <= pos[start] < |h| && h[pos[start]].v == start
    ensures var (h', pos') := UpdateOf(h, pos, start, Finite(0));
      Queue(W, n, start, h', pos', {})
  {
    InitialHeap(n, h, pos);
    UpdateSpec(h, pos, start, Finite(0));
  }

  /** delMin returns the unseen vertex of least key: start first, with key 0. */
  lemma ExtractedLeast(W: Weights, n: nat, start: int, h: seq<Entry>, pos: map<int, int>, seen: set<int>)
    requires Queue(W, n, start, h, pos, seen) && |h| >= 2 && 1 <= start <= n
    requires seen == {} || start in seen
    ensures var r := DelMinOf(h, pos).0;
      && 1 <= r.v <= n && r.v !in seen && r.key == KeyOf(W, n, start, seen, r.v)
      && (forall v :: 1 <= v <= n && v !in seen ==> Le(r.key, KeyOf(W, n, start, seen, v)))
      && (seen == {} ==> r.v == start && r.key == Finite(0))
  {
    var r := DelMinOf(h, pos).0;
    DelMinSpec(h, pos);
    forall v | 1 <= v <= n && v !in seen ensures Le(r.key, KeyOf(W, n, start, seen, v)) {
      InQueue(W, n, start, h, pos, seen, v);
      assert h[1..][pos[v] - 1] == h[pos[v]];
    }
    if seen == {} {
      assert Le(r.key, KeyOf(W, n, start, seen, start));
    }
  }

  /** After delMin the loop over the extracted vertex's edges starts. */
  lemma ExtractedMid(W: Weights, n: nat, start: int, h: seq<Entry>, pos: map<int, int>, seen: set<int>)
    requires Queue(W, n, start, h, pos, seen) && |h| >= 2
    requires seen == {} ==> DelMinOf(h, pos).0.v == start
    ensures var (r, h', pos') := DelMinOf(h, pos);
      Mid(W, n, seen, r.v, {}, h', pos')
  {
    var (r, h', pos') := DelMinOf(h, pos);
    DelMinSpec(h, pos);
    assert 1 <= r.v <= n;
    MidKeys(W, n, start, seen, h, h', r);
    MidCovers(n, seen, h, h', r);
  }

  /** The entries left after delMin keep the keys of the vertices seen before r.v. */
  lemma MidKeys(W: Weights, n: nat, start: int, seen: set<int>, h: seq<Entry>, h': seq<Entry>, r: Entry)
    requires |h| >= 1 && |h'| >= 1
    requires forall e :: e in Contents(h) ==> 1 <= e.v <= n && e.v !in seen && e.key == KeyOf(W, n, start, seen, e.v)
    requires Contents(h') + multiset{r} == Contents(h) && forall e :: e in Contents(h') ==> e.v != r.v
    requires seen == {} ==> r.v == start
    ensures forall e :: e in Contents(h') ==>
      1 <= e.v <= n && e.v !in seen + {r.v} && e.key == Min(CrossMin(W, seen, e.v, n), Through(W, r.v, {}, e.v))
  {
    forall e | e in Contents(h')
      ensures 1 <= e.v <= n && e.v !in seen + {r.v} && e.key == Min(CrossMin(W, seen, e.v, n), Through(W, r.v, {}, e.v))
    {
      assert e in Contents(h);
      CrossMinEmpty(W, e.v, n);
    }
  }

  /** Every vertex not seen other than r.v keeps an entry after delMin. */
  lemma MidCovers(n: nat, seen: set<int>, h: seq<Entry>, h': seq<Entry>, r: Entry)
    requires |h| >= 1 && |h'| >= 1
    requires forall v :: 1 <= v <= n && v !in seen ==> v in VertsOf(Contents(h))
    requires Contents(h') + multiset{r} == Contents(h)
    ensures forall v :: 1 <= v <= n && v !in seen + {r.v} ==> v in VertsOf(Contents(h'))
  {
    forall v | 1 <= v <= n && v !in seen + {r.v} ensures v in VertsOf(Contents(h')) {
      var e :| e in Contents(h) && e.v == v;
      assert e != r;
      assert e in Contents(h');
    }
  }

  /** Offering the edge x - y when y is already seen changes nothing. */
  lemma OfferedSeen(W: Weights, n: nat, seen0: set<int>, x: int, done: set<int>, h: seq<Entry>,
                    pos: map<int, int>, y: int)
    requires Mid(W, n, seen0, x, done, h, pos) && y in seen0 + {x}
    ensures Mid(W, n, seen0, x, done + {y}, h, pos)
  {
  }

  /** update(y, w) for the edge x - y of weight w when y is not seen: y's key becomes its
      cheapest edge from the vertices seen before x or through x's offered edges. */
  lemma OfferedUnseen(W: Weights, n: nat, seen0: set<int>, x: int, done: set<int>, h: seq<Entry>,
                      pos: map<int, int>, y: int)
    requires Mid(W, n, seen0, x, done, h, pos) && 1 <= y <= n && y !in seen0 + {x} && y !in done
    requires HasEdge(W, x, y)
    ensures y in pos && 1 <= pos[y] < |h| && h[pos[y]].v == y
    ensures var (h', pos') := UpdateOf(h, pos, y, Finite(W[x][y]));
      Mid(W, n, seen0, x, done + {y}, h', pos')
  {
    var e :| e in Contents(h) && e.v == y;
    PosEntry(h, pos, e);
    UpdateSpec(h, pos, y, Finite(W[x][y]));
    var (h', pos') := UpdateOf(h, pos, y, Finite(W[x][y]));
    UpdatedKeys(W, n, seen0, x, done, h, h', e);
  }

  /** The entries after update(y, w): y's entry e takes the smaller of its key and w, which
      is its cheapest edge with x - y offered; the others keep theirs. */
  lemma UpdatedKeys(W: Weights, n: nat, seen0: set<int>, x: int, done: set<int>, h: seq<Entry>, h': seq<Entry>, e: Entry)
    requires |h| >= 1 && |h'| >= 1
    requires forall f :: f in Contents(h) ==>
      1 <= f.v <= n && f.v !in seen0 + {x} && f.key == Min(CrossMin(W, seen0, f.v, n), Through(W, x, done, f.v))
    requires e in Contents(h) && e.v !in done && HasEdge(W, x, e.v)
    requires forall f :: f in Contents(h') ==>
      (if f.v == e.v then f == Entry(e.v, Min(e.key, Finite(W[x][e.v]))) else f in Contents(h))
    ensures forall f :: f in Contents(h') ==>
      1 <= f.v <= n && f.v !in seen0 + {x} && f.key == Min(CrossMin(W, seen0, f.v, n), Through(W, x, done + {e.v}, f.v))
  {
    forall f | f in Contents(h')
      ensures 1 <= f.v <= n && f.v !in seen0 + {x} && f.key == Min(CrossMin(W, seen0, f.v, n), Through(W, x, done + {e.v}, f.v))
    {
      if f.v == e.v {
        assert Through(W, x, done, e.v) == Inf;
        assert Through(W, x, done + {e.v}, e.v) == Finite(W[x][e.v]);
      } else {
        assert f in Contents(h);
      }
    }
  }

  /** With every edge of x offered, the heap is keyed by the cheapest edges from the seen
      vertices, x included. */
  lemma Offered(W: Weights, n: nat, start: int, seen0: set<int>, x: int, h: seq<Entry>, pos: map<int, int>)
    requires x in W && Mid(W, n, seen0, x, W[x].Keys, h, pos)
    ensures Queue(W, n, start, h, pos, seen0 + {x})
  {
    forall e | e in Contents(h) ensures e.key == KeyOf(W, n, start, seen0 + {x}, e.v) {
      CrossMinAdd(W, seen0, x, e.v, n);
    }
  }

  /** What the loop has added up: before the first round nothing; afterwards, while every
      key taken was finite, the total of a run of Prim's algorithm from start reaching the
      seen vertices; once a key was inf, the graph is not connected. */
  ghost predicate Account(W: Weights, n: nat, start: int, seen: set<int>, mstCount: ExtInt, steps: seq<Step>)
  {
    (seen == {} ==> mstCount == Finite(0) && steps == [])
    && (seen != {} ==>
          start in seen
          && (mstCount.Finite? ==>
                PrimSteps(W, n, {start}, steps) && Seen({start}, steps) == seen && mstCount.n == Total(steps))
          && (mstCount.Inf? ==> !Connected(W, n)))
  }

  /** Adding the key of the extracted vertex keeps the account: the round is a step of
      Prim's algorithm, or its inf shows a cut. */
  lemma Accounted(W: Weights, n: nat, start: int, h: seq<Entry>, pos: map<int, int>, seen: set<int>,
                  mstCount: ExtInt, steps: seq<Step>, x: int, key: ExtInt)
    returns (steps': seq<Step>)
    requires Queue(W, n, start, h, pos, seen) && Account(W, n, start, seen, mstCount, steps)
    requires 1 <= x <= n && x !in seen && key == KeyOf(W, n, start, seen, x)
    requires forall v :: 1 <= v <= n && v !in seen ==> Le(key, KeyOf(W, n, start, seen, v))
    requires seen == {} ==> x == start && key == Finite(0)
    ensures Account(W, n, start, seen + {x}, Add(mstCount, key), steps')
  {
    steps' := steps;
    if seen != {} && mstCount.Finite? {
      if key.Finite? {
        var u := CrossMinAttained(W, seen, x, n);
        var st := Step(u, x, key.n);
        forall a, b | Crossing(W, n, seen, a, b) ensures key.n <= W[a][b] {
          CrossMinLe(W, seen, b, n, a);
        }
        steps' := steps + [st];
        assert steps'[..|steps'| - 1] == steps;
      } else {
        forall a, b | 1 <= b <= n && b !in seen ensures !Crossing(W, n, seen, a, b) {
          if a in seen && HasEdge(W, a, b) {
            CrossMinLe(W, seen, b, n, a);
          }
        }
        assert Cut(W, n, seen);
      }
    }
  }

  /** An empty heap: every vertex has been seen. */
  lemma Emptied(W: Weights, n: nat, start: int, h: seq<Entry>, pos: map<int, int>, seen: set<int>)
    requires Queue(W, n, start, h, pos, seen) && |h| == 1
    ensures Spanning(n, seen)
  {
    assert h[1..] == [];
    assert VertsOf(Contents(h)) == {};
  }
}
