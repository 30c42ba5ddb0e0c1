/** Spanning trees of the undirected graph of PrimSpanningTree.py, and why Prim's algorithm
    finds a cheapest one: every run of it from the same start has the same total, and no
    tree that hangs every vertex from that start weighs less. */
module SpanningTrees {
  import opened ExtInt
  import opened Walks

  /** Graph.vertList with each vertex's connectedTo dictionary: W[u][v] is the weight of the
      edge u - v. */
  type Weights = map<int, map<int, int>>

  predicate HasEdge(W: Weights, u: int, v: int)
  {
    u in W && v in W[u]
  }

  /** addEdge writes every edge in both directions with the same weight. */
  ghost predicate Symmetric(W: Weights)
  {
    forall u, v :: HasEdge(W, u, v) ==> HasEdge(W, v, u) && W[v][u] == W[u][v]
  }

  /** Every vertex of the graph is one of 1 to n. */
  ghost predicate Within(W: Weights, n: int)
  {
    forall u, v :: HasEdge(W, u, v) ==> 1 <= u <= n && 1 <= v <= n
  }

  /** The graph the input file describes: vertices 1 to n, edges in both directions. */
  ghost predicate Undirected(W: Weights, n: int)
  {
    Symmetric(W) && Within(W, n) && forall u :: u in W ==> 1 <= u <= n
  }

  /** u - v leads from the vertex u of S to the vertex v, one of 1 to n, outside S. */
  ghost predicate Crossing(W: Weights, n: int, S: set<int>, u: int, v: int)
  {
    u in S && 1 <= v <= n && v !in S && HasEdge(W, u, v)
  }

  /** S holds some but not all of the vertices 1 to n, and no edge leaves it. */
  ghost predicate Cut(W: Weights, n: int, S: set<int>)
  {
    S != {} && (forall v :: v in S ==> 1 <= v <= n)
    && (exists v :: 1 <= v <= n && v !in S)
    && forall u, v :: !Crossing(W, n, S, u, v)
  }

  /** No set of vertices is cut off from the rest. */
  ghost predicate Connected(W: Weights, n: int)
  {
    forall S :: !Cut(W, n, S)
  }

  /** Every vertex 1 to n is in S. */
  ghost predicate Spanning(n: int, S: set<int>)
  {
    forall v :: 1 <= v <= n ==> v in S
  }

  ghost predicate InRange(n: int, S: set<int>)
  {
    forall v :: v in S ==> 1 <= v <= n
  }

  // Trees hung from a set of roots

  /** v, a vertex of C outside S, hangs from par[v] by an edge; par[v] is in C and is
      either one of S or of smaller rank. */
  ghost predicate Hangs(W: Weights, n: nat, S: set<int>, C: set<int>, par: seq<int>, rank: seq<nat>, v: int)
  {
    |par| == n + 1 && |rank| == n + 1 && 1 <= v <= n
    && 1 <= par[v] <= n && par[v] in C && HasEdge(W, par[v], v)
    && (par[v] !in S ==> rank[par[v]] < rank[v])
  }

  /** par and rank hang every vertex of C outside S from S: following par from such a vertex
      lowers the rank until it reaches S. */
  ghost predicate Tree(W: Weights, n: nat, S: set<int>, C: set<int>, par: seq<int>, rank: seq<nat>)
  {
    |par| == n + 1 && |rank| == n + 1
    && forall v :: 1 <= v <= n && v in C && v !in S ==> Hangs(W, n, S, C, par, rank, v)
  }

  /** The weight of the edge v hangs by: 0 for a root or a vertex outside C. */
  function Part(W: Weights, S: set<int>, C: set<int>, par: seq<int>, v: int): int
    requires 0 <= v < |par|
  {
    if v in C && v !in S && HasEdge(W, par[v], v) then W[par[v]][v] else 0
  }

  /** The weight of the edges that hang the vertices 1 to k. */
  function Cost(W: Weights, S: set<int>, C: set<int>, par: seq<int>, k: nat): int
    requires k < |par|
  {
    if k == 0 then 0 else Cost(W, S, C, par, k - 1) + Part(W, S, C, par, k)
  }

  lemma {:induction false} CostSame(W: Weights, S1: set<int>, C1: set<int>, par1: seq<int>,
                                    S2: set<int>, C2: set<int>, par2: seq<int>, k: nat)
    requires k < |par1| && k < |par2|
    requires forall v :: 1 <= v <= k ==> Part(W, S1, C1, par1, v) == Part(W, S2, C2, par2, v)
    ensures Cost(W, S1, C1, par1, k) == Cost(W, S2, C2, par2, k)
  {
    if k > 0 {
      CostSame(W, S1, C1, par1, S2, C2, par2, k - 1);
    }
  }

  /** Two trees whose edges differ at one vertex y differ in weight by those two edges. */
  lemma {:induction false} CostPoint(W: Weights, S1: set<int>, C1: set<int>, par1: seq<int>,
                                     S2: set<int>, C2: set<int>, par2: seq<int>, y: int, k: nat)
    requires k < |par1| && k < |par2| && 1 <= y <= k
    requires forall v :: 1 <= v <= k && v != y ==> Part(W, S1, C1, par1, v) == Part(W, S2, C2, par2, v)
    ensures Cost(W, S1, C1, par1, k) - Part(W, S1, C1, par1, y) == Cost(W, S2, C2, par2, k) - Part(W, S2, C2, par2, y)
  {
    if y < k {
      CostPoint(W, S1, C1, par1, S2, C2, par2, y, k - 1);
    } else {
      CostSame(W, S1, C1, par1, S2, C2, par2, k - 1);
    }
  }

  lemma {:induction false} CostZero(W: Weights, S: set<int>, C: set<int>, par: seq<int>, k: nat)
    requires k < |par| && forall v :: 1 <= v <= k && v in C ==> v in S
    ensures Cost(W, S, C, par, k) == 0
  {
    if k > 0 {
      CostZero(W, S, C, par, k - 1);
    }
  }

  /** The exchange step of the proof: if no edge leaving S weighs less than w, then adding
      a to the roots and re-hanging the vertices between a and S from a saves at least w.
      Only vertices of rank at most a's change parent. */
  lemma {:induction false} Exchange(W: Weights, n: nat, S: set<int>, C: set<int>, par: seq<int>,
                                    rank: seq<nat>, a: int, w: int)
    returns (par': seq<int>, rank': seq<nat>)
    requires Symmetric(W) && Tree(W, n, S, C, par, rank) && 1 <= a <= n && a in C && a !in S
    requires forall u, v :: Crossing(W, n, S, u, v) ==> w <= W[u][v]
    ensures Tree(W, n, S + {a}, C, par', rank')
    ensures Cost(W, S + {a}, C, par', n) + w <= Cost(W, S, C, par, n)
    ensures forall v :: 1 <= v <= n && v in C && v !in S && rank[v] > rank[a] ==> par'[v] == par[v]
    decreases rank[a]
  {
    assert Hangs(W, n, S, C, par, rank, a);
    var x := par[a];
    if x in S {
      par', rank' := par, rank;
      assert Crossing(W, n, S, x, a);
      CostPoint(W, S, C, par, S + {a}, C, par, a, n);
    } else {
      var P, R := Exchange(W, n, S, C, par, rank, x, w);
      assert P[a] == x;
      par' := P[x := a];
      rank' := seq(n + 1, v requires 0 <= v < n + 1 => if v == x then 0 else R[v] + 1);
      var S' := S + {a};
      forall v | 1 <= v <= n && v in C && v !in S' ensures Hangs(W, n, S', C, par', rank', v) {
        if v != x {
          assert Hangs(W, n, S + {x}, C, P, R, v);
        }
      }
      CostPoint(W, S + {x}, C, P, S + {x} + {a}, C, P, a, n);
      CostPoint(W, S + {x} + {a}, C, P, S', C, par', x, n);
    }
  }

  // Runs of Prim's algorithm

  /** One round: the vertex v joins by the edge u - v of weight w. */
  datatype Step = Step(u: int, v: int, w: int)

  /** The vertices seen after the steps, starting from S0. */
  function Seen(S0: set<int>, steps: seq<Step>): (S: set<int>)
    ensures S0 <= S
  {
    if steps == [] then S0 else Seen(S0, steps[..|steps| - 1]) + {steps[|steps| - 1].v}
  }

  /** The sum of the weights of the steps. */
  function Total(steps: seq<Step>): int
  {
    if steps == [] then 0 else Total(steps[..|steps| - 1]) + steps[|steps| - 1].w
  }

  /** st takes an edge leaving S of least weight. */
  ghost predicate Cheapest(W: Weights, n: int, S: set<int>, st: Step)
  {
    Crossing(W, n, S, st.u, st.v) && W[st.u][st.v] == st.w
    && forall u, v :: Crossing(W, n, S, u, v) ==> st.w <= W[u][v]
  }

  /** Every step takes a cheapest edge leaving the vertices seen before it. */
  ghost predicate PrimSteps(W: Weights, n: int, S0: set<int>, steps: seq<Step>)
  {
    steps == []
    || (PrimSteps(W, n, S0, steps[..|steps| - 1])
        && Cheapest(W, n, Seen(S0, steps[..|steps| - 1]), steps[|steps| - 1]))
  }

  /** A complete run of Prim's algorithm from S0: it ends with every vertex seen. */
  ghost predicate PrimRun(W: Weights, n: int, S0: set<int>, steps: seq<Step>)
  {
    PrimSteps(W, n, S0, steps) && Spanning(n, Seen(S0, steps))
  }

  /** After the steps of a run, any tree hung from S0 leaves a tree hung from the seen
      vertices that is lighter by at least the steps' total. */
  lemma {:induction false} Reduced(W: Weights, n: nat, S0: set<int>, C: set<int>, par: seq<int>,
                                   rank: seq<nat>, steps: seq<Step>)
    returns (par': seq<int>, rank': seq<nat>)
    requires Symmetric(W) && Spanning(n, C) && Tree(W, n, S0, C, par, rank) && PrimSteps(W, n, S0, steps)
    ensures Tree(W, n, Seen(S0, steps), C, par', rank')
    ensures Cost(W, Seen(S0, steps), C, par', n) + Total(steps) <= Cost(W, S0, C, par, n)
  {
    if steps == [] {
      par', rank' := par, rank;
    } else {
      var pre, st := steps[..|steps| - 1], steps[|steps| - 1];
      var P, R := Reduced(W, n, S0, C, par, rank, pre);
      par', rank' := Exchange(W, n, Seen(S0, pre), C, P, R, st.v, st.w);
    }
  }

  /** The total of a run of Prim's algorithm is at most the weight of any tree that hangs
      every vertex from the same start: it is a minimum spanning tree's weight. */
  lemma Optimal(W: Weights, n: nat, S0: set<int>, C: set<int>, par: seq<int>, rank: seq<nat>, steps: seq<Step>)
    requires Symmetric(W) && Spanning(n, C) && Tree(W, n, S0, C, par, rank) && PrimRun(W, n, S0, steps)
    ensures Total(steps) <= Cost(W, S0, C, par, n)
  {
    var P, R := Reduced(W, n, S0, C, par, rank, steps);
    CostZero(W, Seen(S0, steps), C, P, n);
  }

  /** The steps of a run hang every vertex they see from S0, by edges weighing their
      total. */
  lemma {:induction false} RunTree(W: Weights, n: nat, S0: set<int>, steps: seq<Step>)
    returns (par: seq<int>, rank: seq<nat>)
    requires InRange(n, S0) && PrimSteps(W, n, S0, steps)
    ensures InRange(n, Seen(S0, steps))
    ensures Tree(W, n, S0, Seen(S0, steps), par, rank)
    ensures Cost(W, S0, Seen(S0, steps), par, n) == Total(steps)
    ensures forall v :: 1 <= v <= n && v in Seen(S0, steps) && v !in S0 ==> rank[v] <= |steps|
  {
    if steps == [] {
      par, rank := seq(n + 1, _ => 0), seq(n + 1, _ => 0);
      CostZero(W, S0, S0, par, n);
    } else {
      var pre, st := steps[..|steps| - 1], steps[|steps| - 1];
      var P, R := RunTree(W, n, S0, pre);
      var C0, C := Seen(S0, pre), Seen(S0, steps);
      par, rank := P[st.v := st.u], R[st.v := |steps|];
      forall v | 1 <= v <= n && v in C && v !in S0 ensures Hangs(W, n, S0, C, par, rank, v) {
        if v != st.v {
          assert Hangs(W, n, S0, C0, P, R, v);
        }
      }
      CostPoint(W, S0, C0, P, S0, C, par, st.v, n);
    }
  }

  /** Any two runs of Prim's algorithm from the same start have the same total. */
  lemma SameTotal(W: Weights, n: nat, S0: set<int>, steps1: seq<Step>, steps2: seq<Step>)
    requires Symmetric(W) && InRange(n, S0) && PrimRun(W, n, S0, steps1) && PrimRun(W, n, S0, steps2)
    ensures Total(steps1) == Total(steps2)
  {
    var P1, R1 := RunTree(W, n, S0, steps1);
    var P2, R2 := RunTree(W, n, S0, steps2);
    Optimal(W, n, S0, Seen(S0, steps2), P2, R2, steps1);
    Optimal(W, n, S0, Seen(S0, steps1), P1, R1, steps2);
  }

  // The cheapest edge into a vertex

  /** The least weight of an edge from one of the vertices 1 to k of S to v, inf if there
      is none. */
  function CrossMin(W: Weights, S: set<int>, v: int, k: nat): ExtInt
  {
    if k == 0 then Inf
    else Min(CrossMin(W, S, v, k - 1), if k in S && HasEdge(W, k, v) then Finite(W[k][v]) else Inf)
  }

  lemma {:induction false} CrossMinLe(W: Weights, S: set<int>, v: int, k: nat, u: int)
    requires u in S && 1 <= u <= k && HasEdge(W, u, v)
    ensures Le(CrossMin(W, S, v, k), Finite(W[u][v]))
  {
    if u < k {
      CrossMinLe(W, S, v, k - 1, u);
    }
  }

  lemma {:induction false} CrossMinAttained(W: Weights, S: set<int>, v: int, k: nat) returns (u: int)
    requires CrossMin(W, S, v, k).Finite?
    ensures u in S && 1 <= u <= k && HasEdge(W, u, v) && CrossMin(W, S, v, k) == Finite(W[u][v])
  {
    if CrossMin(W, S, v, k - 1) == CrossMin(W, S, v, k) {
      u := CrossMinAttained(W, S, v, k - 1);
    } else {
      u := k;
    }
  }

  /** Adding x to S lowers the least weight into v to the edge x - v when that is lighter. */
  lemma {:induction false} CrossMinAdd(W: Weights, S: set<int>, x: int, v: int, k: nat)
    requires 1 <= x <= k
    ensures CrossMin(W, S + {x}, v, k)
      == Min(CrossMin(W, S, v, k), if HasEdge(W, x, v) then Finite(W[x][v]) else Inf)
  {
    if x < k {
      CrossMinAdd(W, S, x, v, k - 1);
    } else {
      CrossMinSame(W, S, S + {x}, v, k - 1);
    }
  }

  lemma {:induction false} CrossMinSame(W: Weights, S1: set<int>, S2: set<int>, v: int, k: nat)
    requires forall u :: 1 <= u <= k ==> (u in S1 <==> u in S2)
    ensures CrossMin(W, S1, v, k) == CrossMin(W, S2, v, k)
  {
    if k > 0 {
      CrossMinSame(W, S1, S2, v, k - 1);
    }
  }

  lemma {:induction false} CrossMinEmpty(W: Weights, v: int, k: nat)
    ensures CrossMin(W, {}, v, k) == Inf
  {
    if k > 0 {
      CrossMinEmpty(W, v, k - 1);
    }
  }
}
