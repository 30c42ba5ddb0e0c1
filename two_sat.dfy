/** Adjacency lists, a dictionary from a node to the list of its successors, as 2SAT.py
    keeps them, and the graph of successor sets they hold. */
module AdjacencyLists {
  import opened Reachability

  /** The distinct entries of a list. */
  function Elems(s: seq<int>): set<int>
  {
    set x | x in s
  }

  /** The adjacency lists m hold the edges of g: the same nodes, and the successors of
      every node are the entries of its list. */
  ghost predicate Lists(m: map<int, seq<int>>, g: map<int, set<int>>)
  {
    m.Keys == g.Keys && forall x {:trigger Succ(g, x)} :: x in m ==> Elems(m[x]) == Succ(g, x)
  }

  /** Appending v to the list of u. */
  function Push(m: map<int, seq<int>>, u: int, v: int): map<int, seq<int>>
    requires u in m
  {
    m[u := m[u] + [v]]
  }

  lemma ElemsSnoc(s: seq<int>, v: int)
    ensures Elems(s + [v]) == Elems(s) + {v}
  {
    assert forall x :: x in s + [v] <==> x in s || x == v;
  }

  /** g2 is g with the edges u -> v and w -> z added. */
  ghost predicate TwoMore(g: map<int, set<int>>, g2: map<int, set<int>>, u: int, v: int, w: int, z: int)
  {
    g2.Keys == g.Keys + {u, v, w, z}
    && forall x {:trigger Succ(g2, x)} ::
         Succ(g2, x) == Succ(g, x) + (if x == u then {v} else {}) + (if x == w then {z} else {})
  }

  /** The graph g with the edges u -> v and w -> z added. */
  lemma TwoArcs(g: map<int, set<int>>, u: int, v: int, w: int, z: int) returns (g2: map<int, set<int>>)
    ensures TwoMore(g, g2, u, v, w, z)
  {
    g2 := AddArc(AddArc(g, u, v), w, z);
    forall x ensures Succ(g2, x) == Succ(g, x) + (if x == u then {v} else {}) + (if x == w then {z} else {}) {
      AddArcSucc(g, u, v, x);
      AddArcSucc(AddArc(g, u, v), w, z, x);
    }
  }

  /** Appending v to the list of u and then z to the list of w adds the edges u -> v and w -> z. */
  lemma ListsMore(m: map<int, seq<int>>, g: map<int, set<int>>, g2: map<int, set<int>>, u: int, v: int, w: int, z: int)
    requires Lists(m, g) && u in m && v in m && w in m && z in m && TwoMore(g, g2, u, v, w, z)
    ensures Push(Push(m, u, v), w, z).Keys == m.Keys
    ensures Lists(Push(Push(m, u, v), w, z), g2)
  {
    var m1 := Push(m, u, v);
    var m2 := Push(m1, w, z);
    forall x | x in m2 ensures Elems(m2[x]) == Succ(g2, x) {
      ElemsSnoc(m[u], v);
      ElemsSnoc(m1[w], z);
      assert m1[x] == if x == u then m[u] + [v] else m[x];
      assert m2[x] == if x == w then m1[w] + [z] else m1[x];
      assert Elems(m[x]) == Succ(g, x);
    }
  }

  /** A new node with an empty list. */
  lemma ListsNew(m: map<int, seq<int>>, g: map<int, set<int>>, x: int)
    requires Lists(m, g)
    ensures Lists(m[x := []], g[x := {}])
  {
    var m', g' := m[x := []], g[x := {}];
    forall y | y in m' ensures Elems(m'[y]) == Succ(g', y) {
      if y == x {
        assert Elems([]) == {};
      } else {
        assert Elems(m[y]) == Succ(g, y);
      }
    }
  }

  /** The list of x, empty for a node not there yet. */
  function Entry(m: map<int, seq<int>>, x: int): seq<int>
  {
    if x in m then m[x] else []
  }

  /** Two appends change exactly the two lists they append to, in that order. */
  lemma PushTwice(m: map<int, seq<int>>, u: int, v: int, w: int, z: int)
    requires u in m && w in m
    ensures forall x :: x in m ==>
              Push(Push(m, u, v), w, z)[x] == m[x] + (if x == u then [v] else []) + (if x == w then [z] else [])
  {
  }

  /** Two more edges than g are two more edges than any graph with the same edges as g
      that already has some of the new nodes as keys. */
  lemma TwoMoreNarrow(g: map<int, set<int>>, g1: map<int, set<int>>, g2: map<int, set<int>>,
                      u: int, v: int, w: int, z: int)
    requires TwoMore(g, g2, u, v, w, z)
    requires g.Keys <= g1.Keys <= g.Keys + {u, v, w, z}
    requires forall x {:trigger Succ(g1, x)} :: Succ(g1, x) == Succ(g, x)
    ensures TwoMore(g1, g2, u, v, w, z)
  {
    forall x ensures Succ(g2, x) == Succ(g1, x) + (if x == u then {v} else {}) + (if x == w then {z} else {}) {
      assert Succ(g1, x) == Succ(g, x);
    }
  }

  /** The lists once the literal x has a node: a new x gets an empty list, and so does -x. */
  function Opened(m: map<int, seq<int>>, x: int): map<int, seq<int>>
  {
    if x in m then m else m[x := []][-x := []]
  }

  /** Opening two literals and appending twice changes exactly the two lists appended to. */
  lemma OpenedPushes(m: map<int, seq<int>>, a: int, b: int, u: int, v: int, w: int, z: int)
    requires u in {a, -a, b, -b} && w in {a, -a, b, -b}
    requires (a in m <==> -a in m) && (b in m <==> -b in m)
    ensures forall x :: x in Push(Push(Opened(Opened(m, a), b), u, v), w, z) ==>
              Push(Push(Opened(Opened(m, a), b), u, v), w, z)[x]
                == Entry(m, x) + (if x == u then [v] else []) + (if x == w then [z] else [])
  {
    var m1 := Opened(m, a);
    OpenedEntry(m, a);
    var m2 := Opened(m1, b);
    OpenedEntry(m1, b);
    PushTwice(m2, u, v, w, z);
    forall x | x in m2 ensures m2[x] == Entry(m, x) {
      assert x in m1 ==> m1[x] == Entry(m, x);
    }
  }

  /** Opening a literal whose negation has a node exactly when it has one adds both
      with empty lists and keeps every other list. */
  lemma OpenedEntry(m: map<int, seq<int>>, a: int)
    requires a in m <==> -a in m
    ensures Opened(m, a).Keys == m.Keys + {a, -a}
    ensures forall x :: x in Opened(m, a) ==> Opened(m, a)[x] == Entry(m, x)
  {
  }
}

/** The implication graph of 2SAT.py: every literal x (a variable, or -x for its negation)
    is a node, and a clause (a or b) gives the edges -a -> b and -b -> a, read as "if a
    is false then b is true" and the other way round. */
module ImplicationGraph {
  import opened Reachability
  import opened ComponentIds
  import opened AdjacencyLists

  /** The literal lit under the assignment that makes exactly the variables in t true. */
  predicate Holds(t: set<int>, lit: int)
  {
    if lit >= 0 then lit in t else -lit !in t
  }

  lemma NegHolds(t: set<int>, lit: int)
    requires lit != 0
    ensures Holds(t, -lit) == !Holds(t, lit)
  {
  }

  /** Every clause has a true literal. */
  predicate Satisfies(t: set<int>, clauses: seq<(int, int)>)
  {
    forall i :: 0 <= i < |clauses| ==> Holds(t, clauses[i].0) || Holds(t, clauses[i].1)
  }

  ghost predicate Satisfiable(clauses: seq<(int, int)>)
  {
    exists t :: Satisfies(t, clauses)
  }

  /** Variables are numbered from 1, so no literal is 0. */
  predicate NonZero(clauses: seq<(int, int)>)
  {
    forall i :: 0 <= i < |clauses| ==> clauses[i].0 != 0 && clauses[i].1 != 0
  }

  /** Every variable of the clauses is among 1 to n. */
  predicate Within(clauses: seq<(int, int)>, n: int)
  {
    forall i :: 0 <= i < |clauses| ==> -n <= clauses[i].0 <= n && -n <= clauses[i].1 <= n
  }

  /** The edges that clause c stands for. */
  predicate Implies(c: (int, int), u: int, v: int)
  {
    (u == -c.0 && v == c.1) || (u == -c.1 && v == c.0)
  }

  /** The literals that the clauses force once u holds: b for a clause (a, b) with u the
      negation of a, and a when u is the negation of b. */
  function Consequences(clauses: seq<(int, int)>, u: int): set<int>
    decreases |clauses|
  {
    if clauses == [] then {}
    else
      var c := clauses[|clauses| - 1];
      Consequences(clauses[..|clauses| - 1], u)
      + (if u == -c.0 then {c.1} else {}) + (if u == -c.1 then {c.0} else {})
  }

  /** A consequence comes from a clause of which it is one side. */
  lemma {:induction false} ConsequenceClause(clauses: seq<(int, int)>, u: int, v: int)
    requires v in Consequences(clauses, u)
    ensures exists i :: 0 <= i < |clauses| && Implies(clauses[i], u, v)
  {
    var n := |clauses| - 1;
    var c := clauses[n];
    if v in Consequences(clauses[..n], u) {
      ConsequenceClause(clauses[..n], u, v);
      var i :| 0 <= i < n && Implies(clauses[..n][i], u, v);
      assert clauses[i] == clauses[..n][i];
    } else {
      assert Implies(clauses[n], u, v);
    }
  }

  lemma ConsequencesSnoc(clauses: seq<(int, int)>, a: int, b: int, u: int)
    ensures Consequences(clauses + [(a, b)], u)
            == Consequences(clauses, u) + (if u == -a then {b} else {}) + (if u == -b then {a} else {})
  {
    assert (clauses + [(a, b)])[..|clauses|] == clauses;
  }

  /** Every edge of g stands for a clause. */
  ghost predicate FromClauses(g: map<int, set<int>>, clauses: seq<(int, int)>)
  {
    forall u, v :: v in Succ(g, u) ==> v in Consequences(clauses, u)
  }

  /** Every clause has its two edges in g. */
  ghost predicate HasClauses(g: map<int, set<int>>, clauses: seq<(int, int)>)
  {
    forall i :: 0 <= i < |clauses| ==> HasClause(g, clauses[i])
  }

  /** The two edges of the clause c are in g. */
  ghost predicate HasClause(g: map<int, set<int>>, c: (int, int))
  {
    -c.0 in g && -c.1 in g && c.1 in Succ(g, -c.0) && c.0 in Succ(g, -c.1)
  }

  /** The negation of a literal. */
  function Neg(x: int): int
  {
    -x
  }

  /** The state of the SCC object: the nodes in the order the dictionary received them,
      forward and reverse adjacency lists holding a graph and its reversal, a node for the
      negation of every node, and exactly the implications of the clauses read. */
  ghost predicate Wellformed(nodes: seq<int>, adj: map<int, seq<int>>, radj: map<int, seq<int>>,
                             fwd: map<int, set<int>>, rev: map<int, set<int>>, clauses: seq<(int, int)>)
  {
    Transposed(nodes, fwd, rev) && Lists(adj, fwd) && Lists(radj, rev)
    && (forall x {:trigger Neg(x)} :: x in adj ==> Neg(x) in adj)
    && FromClauses(fwd, clauses) && HasClauses(fwd, clauses)
  }

  /** The nodes that a literal x creates when it is new: x and -x, or one node for 0. */
  function NewLiterals(keys: set<int>, x: int): seq<int>
  {
    if x in keys then [] else if x == 0 then [x] else [x, -x]
  }

  /** New nodes without edges leave the implications as they were. */
  lemma ClausesFrame(g: map<int, set<int>>, g': map<int, set<int>>, clauses: seq<(int, int)>)
    requires FromClauses(g, clauses) && HasClauses(g, clauses)
    requires forall u :: u in g ==> u in g' && Succ(g', u) == Succ(g, u)
    requires forall u :: u !in g ==> Succ(g', u) == {}
    ensures FromClauses(g', clauses) && HasClauses(g', clauses)
  {
    forall u, v | v in Succ(g', u) ensures v in Consequences(clauses, u) {
      assert u in g && v in Succ(g, u);
    }
  }

  /** The nodes x and -x of a new literal. */
  lemma LiteralWellformed(nodes: seq<int>, adj: map<int, seq<int>>, radj: map<int, seq<int>>,
                   fwd: map<int, set<int>>, rev: map<int, set<int>>, clauses: seq<(int, int)>, x: int)
    requires Wellformed(nodes, adj, radj, fwd, rev, clauses) && x !in adj
    ensures Wellformed(nodes + NewLiterals(adj.Keys, x), adj[x := []][-x := []], radj[x := []][-x := []],
                       fwd[x := {}][-x := {}], rev[x := {}][-x := {}], clauses)
  {
    assert Neg(-x) == x;
    ListsNew(adj, fwd, x);
    ListsNew(adj[x := []], fwd[x := {}], -x);
    ListsNew(radj, rev, x);
    ListsNew(radj[x := []], rev[x := {}], -x);
    TransposedNew(nodes, fwd, rev, x);
    ClausesFrame(fwd, fwd[x := {}][-x := {}], clauses);
  }

  /** The nodes x and -x, without edges. */
  lemma TransposedNew(nodes: seq<int>, fwd: map<int, set<int>>, rev: map<int, set<int>>, x: int)
    requires Transposed(nodes, fwd, rev) && x !in fwd && -x !in fwd
    ensures Transposed(nodes + NewLiterals(fwd.Keys, x), fwd[x := {}][-x := {}], rev[x := {}][-x := {}])
  {
    AddNodeTransposed(nodes, fwd, rev, x);
    if x != 0 {
      AddNodeTransposed(nodes + [x], fwd[x := {}], rev[x := {}], -x);
      assert nodes + [x] + [-x] == nodes + NewLiterals(fwd.Keys, x);
    } else {
      assert fwd[x := {}][-x := {}] == fwd[x := {}] && rev[x := {}][-x := {}] == rev[x := {}];
    }
  }

  /** The edges of a new clause (a, b) stand for it. */
  lemma FromClausesSnoc(f: map<int, set<int>>, f2: map<int, set<int>>, clauses: seq<(int, int)>, a: int, b: int)
    requires FromClauses(f, clauses)
    requires forall x, y :: y in Succ(f2, x) ==> y in Succ(f, x) || (x == -a && y == b) || (x == -b && y == a)
    ensures FromClauses(f2, clauses + [(a, b)])
  {
    forall u, v | v in Succ(f2, u) ensures v in Consequences(clauses + [(a, b)], u) {
      ConsequencesSnoc(clauses, a, b, u);
    }
  }

  /** The old clauses keep their edges and the new one has its two. */
  lemma HasClausesSnoc(f: map<int, set<int>>, f2: map<int, set<int>>, clauses: seq<(int, int)>, a: int, b: int)
    requires HasClauses(f, clauses) && (forall x :: x in f ==> x in f2) && -a in f2 && -b in f2
    requires forall x, y :: y in Succ(f, x) ==> y in Succ(f2, x)
    requires b in Succ(f2, -a) && a in Succ(f2, -b)
    ensures HasClauses(f2, clauses + [(a, b)])
  {
    forall i | 0 <= i < |clauses| + 1 ensures HasClause(f2, (clauses + [(a, b)])[i]) {
      if i < |clauses| {
        assert HasClause(f, clauses[i]);
      }
    }
  }

  /** The two edges of a clause over existing nodes, in both directions. */
  lemma TransposedMore(nodes: seq<int>, fwd: map<int, set<int>>, rev: map<int, set<int>>,
                       f2: map<int, set<int>>, r2: map<int, set<int>>, a: int, b: int)
    requires Transposed(nodes, fwd, rev) && -a in fwd && -b in fwd && a in fwd && b in fwd
    requires TwoMore(fwd, f2, -a, b, -b, a) && TwoMore(rev, r2, b, -a, a, -b)
    ensures Transposed(nodes, f2, r2)
  {
    assert f2.Keys == fwd.Keys && r2.Keys == rev.Keys;
    forall x, y | x in f2 && y in Succ(f2, x) ensures y in f2 {
      assert y in Succ(fwd, x) || y == b || y == a;
    }
    forall x, y | x in r2 && y in Succ(r2, x) ensures y in r2 {
      assert y in Succ(rev, x) || y == -a || y == -b;
    }
    forall u, v ensures v in Succ(f2, u) <==> u in Succ(r2, v) {
      assert v in Succ(fwd, u) <==> u in Succ(rev, v);
    }
  }

  /** The implications of the clauses with the edges of a new clause (a, b). */
  lemma ClausesArcs(f: map<int, set<int>>, f2: map<int, set<int>>, clauses: seq<(int, int)>, a: int, b: int)
    requires FromClauses(f, clauses) && HasClauses(f, clauses) && -a in f && -b in f
    requires TwoMore(f, f2, -a, b, -b, a)
    ensures FromClauses(f2, clauses + [(a, b)]) && HasClauses(f2, clauses + [(a, b)])
  {
    FromClausesSnoc(f, f2, clauses, a, b);
    HasClausesSnoc(f, f2, clauses, a, b);
  }

  /** The edges -a -> b and -b -> a of the clause (a, b), over existing nodes. */
  lemma ImplicationsWellformed(nodes: seq<int>, adj: map<int, seq<int>>, radj: map<int, seq<int>>,
                        fwd: map<int, set<int>>, rev: map<int, set<int>>, clauses: seq<(int, int)>,
                        f2: map<int, set<int>>, r2: map<int, set<int>>, a: int, b: int)
    requires Wellformed(nodes, adj, radj, fwd, rev, clauses) && a in adj && b in adj
    requires TwoMore(fwd, f2, -a, b, -b, a) && TwoMore(rev, r2, b, -a, a, -b)
    ensures -a in adj && -b in adj
    ensures Wellformed(nodes, Push(Push(adj, -a, b), -b, a), Push(Push(radj, b, -a), a, -b), f2, r2, clauses + [(a, b)])
  {
    assert Neg(a) in adj && Neg(b) in adj;
    ListsMore(adj, fwd, f2, -a, b, -b, a);
    ListsMore(radj, rev, r2, b, -a, a, -b);
    TransposedMore(nodes, fwd, rev, f2, r2, a, b);
    ClausesArcs(fwd, f2, clauses, a, b);
  }
  /** Lines 53-55 (and 57-59) for the literal x: the node of a new literal x and of -x,
      without edges, over ghost graphs f1 and r1 with the edges of fwd and rev. */
  lemma OpenLiteral(nodes: seq<int>, adj: map<int, seq<int>>, radj: map<int, seq<int>>,
                    fwd: map<int, set<int>>, rev: map<int, set<int>>, clauses: seq<(int, int)>, x: int)
    returns (f1: map<int, set<int>>, r1: map<int, set<int>>)
    requires Wellformed(nodes, adj, radj, fwd, rev, clauses)
    ensures Opened(adj, x).Keys == adj.Keys + {x, -x}
    ensures Wellformed(nodes + NewLiterals(adj.Keys, x), Opened(adj, x), Opened(radj, x), f1, r1, clauses)
    ensures f1.Keys == fwd.Keys + {x, -x} && r1.Keys == rev.Keys + {x, -x}
    ensures forall y {:trigger Succ(f1, y)} :: Succ(f1, y) == Succ(fwd, y)
    ensures forall y {:trigger Succ(r1, y)} :: Succ(r1, y) == Succ(rev, y)
  {
    if x in adj {
      assert Neg(x) in adj;
      f1, r1 := fwd, rev;
    } else {
      assert Neg(-x) == x;
      LiteralWellformed(nodes, adj, radj, fwd, rev, clauses, x);
      f1, r1 := fwd[x := {}][-x := {}], rev[x := {}][-x := {}];
    }
  }

  /** A whole clause line (a, b): both literals opened, then the two edges appended; the
      result holds the graphs f2 and r2 with the two implications added. */
  lemma ClauseRead(nodes: seq<int>, adj: map<int, seq<int>>, radj: map<int, seq<int>>,
                   fwd: map<int, set<int>>, rev: map<int, set<int>>, clauses: seq<(int, int)>,
                   f2: map<int, set<int>>, r2: map<int, set<int>>, a: int, b: int)
    requires Wellformed(nodes, adj, radj, fwd, rev, clauses)
    requires TwoMore(fwd, f2, -a, b, -b, a) && TwoMore(rev, r2, b, -a, a, -b)
    ensures Opened(adj, a).Keys == adj.Keys + {a, -a}
    ensures -a in Opened(Opened(adj, a), b) && -b in Push(Opened(Opened(adj, a), b), -a, b)
    ensures b in Opened(Opened(radj, a), b) && a in Push(Opened(Opened(radj, a), b), b, -a)
    ensures Wellformed(nodes + NewLiterals(adj.Keys, a) + NewLiterals(Opened(adj, a).Keys, b),
                       Push(Push(Opened(Opened(adj, a), b), -a, b), -b, a),
                       Push(Push(Opened(Opened(radj, a), b), b, -a), a, -b), f2, r2, clauses + [(a, b)])
  {
    var f1, r1 := OpenLiteral(nodes, adj, radj, fwd, rev, clauses, a);
    var n1 := nodes + NewLiterals(adj.Keys, a);
    var f3, r3 := OpenLiteral(n1, Opened(adj, a), Opened(radj, a), f1, r1, clauses, b);
    TwoMoreNarrow(fwd, f3, f2, -a, b, -b, a);
    TwoMoreNarrow(rev, r3, r2, b, -a, a, -b);
    ImplicationsWellformed(n1 + NewLiterals(Opened(adj, a).Keys, b), Opened(Opened(adj, a), b),
                           Opened(Opened(radj, a), b), f3, r3, clauses, f2, r2, a, b);
  }


  /** With a node for the negation of every node, a literal and its negation are
      opened together. */
  lemma NegationsOpened(nodes: seq<int>, adj: map<int, seq<int>>, radj: map<int, seq<int>>,
                        fwd: map<int, set<int>>, rev: map<int, set<int>>, clauses: seq<(int, int)>, a: int, b: int)
    requires Wellformed(nodes, adj, radj, fwd, rev, clauses)
    ensures (a in adj <==> -a in adj) && (b in adj <==> -b in adj)
    ensures (a in radj <==> -a in radj) && (b in radj <==> -b in radj)
  {
    assert Neg(a) == -a && Neg(-a) == a && Neg(b) == -b && Neg(-b) == b;
  }

  /** Truth flows along the edges of the implication graph of satisfied clauses. */
  lemma {:induction false} PathHolds(g: map<int, set<int>>, clauses: seq<(int, int)>, t: set<int>, p: seq<int>, k: int)
    requires FromClauses(g, clauses) && NonZero(clauses) && Satisfies(t, clauses)
    requires IsPath(g, p) && Holds(t, p[0]) && 0 <= k < |p|
    ensures Holds(t, p[k])
  {
    if k > 0 {
      PathHolds(g, clauses, t, p, k - 1);
      assert p[k] in Succ(g, p[k - 1]);
      ConsequenceClause(clauses, p[k - 1], p[k]);
      var i :| 0 <= i < |clauses| && Implies(clauses[i], p[k - 1], p[k]);
      NegHolds(t, clauses[i].0);
      NegHolds(t, clauses[i].1);
    }
  }

  lemma ReachesHolds(g: map<int, set<int>>, clauses: seq<(int, int)>, t: set<int>, u: int, v: int)
    requires FromClauses(g, clauses) && NonZero(clauses) && Satisfies(t, clauses)
    requires Reaches(g, u, v) && Holds(t, u)
    ensures Holds(t, v)
  {
    var p :| IsPath(g, p) && p[0] == u && p[|p| - 1] == v;
    PathHolds(g, clauses, t, p, |p| - 1);
  }

  /** A literal and its negation that each imply the other cannot both be given a value:
      the clauses have no satisfying assignment. */
  lemma ConflictUnsatisfiable(g: map<int, set<int>>, clauses: seq<(int, int)>, x: int)
    requires FromClauses(g, clauses) && NonZero(clauses) && x != 0
    requires Reaches(g, x, -x) && Reaches(g, -x, x)
    ensures !Satisfiable(clauses)
  {
    if Satisfiable(clauses) {
      var t :| Satisfies(t, clauses);
      NegHolds(t, x);
      if Holds(t, x) {
        ReachesHolds(g, clauses, t, x, -x);
      } else {
        ReachesHolds(g, clauses, t, -x, x);
      }
      assert false;
    }
  }

  /** The assignment read off the component labels: variable x is true when the label of
      x is smaller than that of -x. */
  function Chosen(ids: map<int, int>): set<int>
  {
    set x | x in ids && TrueVariable(ids, x)
  }

  predicate TrueVariable(ids: map<int, int>, x: int)
  {
    x > 0 && x in ids && -x in ids && ids[x] < ids[-x]
  }

  /** A literal and its negation with different labels. */
  ghost predicate Apart(ids: map<int, int>, lit: int)
  {
    lit != 0 && lit in ids && -lit in ids && ids[lit] != ids[-lit]
  }

  lemma ChosenHolds(ids: map<int, int>, lit: int)
    requires Apart(ids, lit)
    ensures Holds(Chosen(ids), lit) <==> ids[lit] < ids[-lit]
  {
  }

  /** Labels that never grow along an edge and keep every literal of the clauses apart
      from its negation give a satisfying assignment. */
  lemma LabelsSatisfy(g: map<int, set<int>>, clauses: seq<(int, int)>, ids: map<int, int>)
    requires HasClauses(g, clauses) && Descending(g, ids) && (forall x :: x in g ==> x in ids)
    requires forall i :: 0 <= i < |clauses| ==> Apart(ids, clauses[i].0) && Apart(ids, clauses[i].1)
    ensures Satisfies(Chosen(ids), clauses)
  {
    forall i | 0 <= i < |clauses| ensures Holds(Chosen(ids), clauses[i].0) || Holds(Chosen(ids), clauses[i].1) {
      var a, b := clauses[i].0, clauses[i].1;
      assert HasClause(g, clauses[i]);
      ChosenHolds(ids, a);
      ChosenHolds(ids, b);
      assert b in Succ(g, -a) && a in Succ(g, -b);
      assert ids[b] <= ids[-a] && ids[a] <= ids[-b];
    }
  }
}

/** 2SAT.py: the SCC object that reads the clauses into an implication graph, the two
    depth-first passes of Kosaraju's algorithm over it, written recursively, and the
    check that no variable shares a component with its negation. */
module TwoSat {
  import opened Wrappers
  import opened Reachability
  import opened SearchTimes
  import opened Finishing
  import opened ComponentIds
  import opened AdjacencyLists
  import opened ImplicationGraph

  /** Variable i passes the check: it has no label, or it and -i have different labels. */
  predicate Passes(sccs: map<int, int>, i: int)
  {
    i !in sccs || (-i in sccs && sccs[i] != sccs[-i])
  }

  /** Variable i and its negation share a label. */
  predicate Clash(sccs: map<int, int>, i: int)
  {
    i in sccs && -i in sccs && sccs[i] == sccs[-i]
  }

  /** Variable i has a label and its negation has none, so looking the negation up fails. */
  predicate Missing(sccs: map<int, int>, i: int)
  {
    i in sccs && -i !in sccs
  }

  /** A literal whose variable passes the check is apart from its negation. */
  lemma PassesApart(sccs: map<int, int>, lit: int)
    requires lit != 0 && lit in sccs && -lit in sccs
    requires Passes(sccs, if lit > 0 then lit else -lit)
    ensures Apart(sccs, lit)
  {
  }

  /** Every label of a literal has one for its negation when the labelled nodes are
      the nodes of a graph that has a node for the negation of each node: the lookup of
      check2SAT never fails. */
  lemma NoneMissing(adj: map<int, seq<int>>, fwd: map<int, set<int>>, sccs: map<int, int>)
    requires (forall x {:trigger Neg(x)} :: x in adj ==> Neg(x) in adj) && adj.Keys == fwd.Keys
    requires forall x :: x in sccs <==> x in fwd
    ensures forall i :: !Missing(sccs, i)
  {
    forall i | i in sccs ensures -i in sccs {
      assert Neg(i) in adj;
    }
  }

  /** A variable labelled like its negation, with labels that are the strongly
      connected components of the implication graph, makes the clauses unsatisfiable. */
  lemma ClashUnsatisfiable(fwd: map<int, set<int>>, clauses: seq<(int, int)>, sccs: map<int, int>, n: int)
    requires FromClauses(fwd, clauses) && NonZero(clauses) && SameLabelSameComponent(fwd, sccs)
    requires exists i :: 1 <= i <= n && Clash(sccs, i)
    ensures !Satisfiable(clauses)
  {
    var i :| 1 <= i <= n && Clash(sccs, i);
    ConflictUnsatisfiable(fwd, clauses, i);
  }

  /** Every variable 1 to n passing, with labels that never grow along an edge, gives a
      satisfying assignment of clauses over those variables. */
  lemma PassingSatisfiable(adj: map<int, seq<int>>, fwd: map<int, set<int>>, clauses: seq<(int, int)>,
                           sccs: map<int, int>, n: int)
    requires (forall x {:trigger Neg(x)} :: x in adj ==> Neg(x) in adj) && adj.Keys == fwd.Keys
    requires HasClauses(fwd, clauses) && NonZero(clauses) && Within(clauses, n)
    requires Descending(fwd, sccs) && forall x :: x in sccs <==> x in fwd
    requires forall i :: 1 <= i <= n ==> Passes(sccs, i)
    ensures Satisfiable(clauses)
  {
    forall k | 0 <= k < |clauses| ensures Apart(sccs, clauses[k].0) && Apart(sccs, clauses[k].1) {
      var a, b := clauses[k].0, clauses[k].1;
      assert HasClause(fwd, clauses[k]);
      assert Neg(-a) in adj && Neg(-b) in adj;
      PassesApart(sccs, a);
      PassesApart(sccs, b);
    }
    LabelsSatisfy(fwd, clauses, sccs);
  }

  /** One clause line (a or b): a literal met for the first time gets a node, and so
      does its negation, both without edges; then the edge -a -> b goes into the adj
      list of -a and the reverseAdj list of b, and the edge -b -> a into the adj list of
      -b and the reverseAdj list of a. The ghost graphs gain exactly those two edges. */
  method ReadClause(nodes: seq<int>, adj: map<int, seq<int>>, radj: map<int, seq<int>>,
                    ghost fwd: map<int, set<int>>, ghost rev: map<int, set<int>>, ghost clauses: seq<(int, int)>,
                    a: int, b: int)
    returns (nodes': seq<int>, adj': map<int, seq<int>>, radj': map<int, seq<int>>,
             ghost fwd': map<int, set<int>>, ghost rev': map<int, set<int>>)
    requires Wellformed(nodes, adj, radj, fwd, rev, clauses)
    requires (a in adj <==> -a in adj) && (b in adj <==> -b in adj)
    requires (a in radj <==> -a in radj) && (b in radj <==> -b in radj)
    ensures Wellformed(nodes', adj', radj', fwd', rev', clauses + [(a, b)])
    ensures nodes' == nodes + NewLiterals(adj.Keys, a) + NewLiterals(adj.Keys + {a, -a}, b)
    ensures forall x :: x in adj' ==>
              adj'[x] == Entry(adj, x) + (if x == -a then [b] else []) + (if x == -b then [a] else [])
    ensures forall x :: x in radj' ==>
              radj'[x] == Entry(radj, x) + (if x == b then [-a] else []) + (if x == a then [-b] else [])
    ensures TwoMore(fwd, fwd', -a, b, -b, a) && TwoMore(rev, rev', b, -a, a, -b)
  {
    fwd' := TwoArcs(fwd, -a, b, -b, a);
    rev' := TwoArcs(rev, b, -a, a, -b);
    ClauseRead(nodes, adj, radj, fwd, rev, clauses, fwd', rev', a, b);
    OpenedPushes(adj, a, b, -a, b, -b, a);
    OpenedPushes(radj, a, b, b, -a, a, -b);
    nodes' := nodes + NewLiterals(adj.Keys, a) + NewLiterals(Opened(adj, a).Keys, b);
    var m, rm := Opened(Opened(adj, a), b), Opened(Opened(radj, a), b);
    adj' := Push(Push(m, -a, b), -b, a);
    radj' := Push(Push(rm, b, -a), a, -b);
  }

  /** The loop of loop1 over the lists of the graph g (the reversed graph of the
      class below): a dfs from every node not seen yet, in the order of nodes. */
  method Loop1Search(nodes: seq<int>, ghost g: map<int, set<int>>, lists: map<int, seq<int>>) returns (order: seq<int>)
    requires Lists(lists, g) && Closed(g, g.Keys) && forall x :: x in g <==> x in nodes
    ensures Distinct(order) && forall x :: x in order <==> x in nodes
    ensures FinishOrdered(g, order)
  {
    var seen: set<int> := {};
    order := [];
    ghost var disc: map<int, int>, fin: map<int, int>, clock := map[], map[], 0;
    DfsStart(g);
    for i := 0 to |nodes|
      invariant Searching(g, g.Keys, seen, [], order, disc, fin, clock)
      invariant forall j :: 0 <= j < i ==> nodes[j] in seen
    {
      var node := nodes[i];
      if node !in seen {
        ghost var seen1 := seen;
        seen, order, disc, fin, clock := Loop1Root(g, lists, node, seen, order, disc, fin, clock);
        SeenUpTo(nodes, i, seen1, seen);
      }
    }
    forall x | x in nodes ensures x in order {
      var j :| 0 <= j < |nodes| && nodes[j] == x;
    }
    DfsDone(g, order, disc, fin, clock);
  }

  /** A node of loop1 not seen by the searches before it: discovered, marked seen and
      searched, on a stack of its own. */
  method Loop1Root(ghost g: map<int, set<int>>, lists: map<int, seq<int>>, node: int, seen0: set<int>, order0: seq<int>,
                   ghost disc0: map<int, int>, ghost fin0: map<int, int>, ghost clock0: int)
    returns (seen: set<int>, order: seq<int>, ghost disc: map<int, int>, ghost fin: map<int, int>, ghost clock: int)
    requires Lists(lists, g) && Closed(g, g.Keys) && node in g
    requires node !in seen0 && Searching(g, g.Keys, seen0, [], order0, disc0, fin0, clock0)
    ensures Searching(g, g.Keys, seen, [], order, disc, fin, clock)
    ensures seen0 <= seen && node in seen
  {
    SearchDiscover(g, g.Keys, seen0, [], order0, disc0, fin0, clock0, node);
    seen, order, disc, fin, clock := Loop1Dfs(g, lists, node, seen0 + {node}, order0, [node], disc0[node := clock0], fin0, clock0 + 1);
  }

  /** The dfs of loop1, from a node already marked seen: every successor in g not seen
      yet is marked and searched in turn, then the node joins the order. The ghost
      stack is the chain of calls and the clock counts discoveries and finishes. */
  method Loop1Dfs(ghost g: map<int, set<int>>, lists: map<int, seq<int>>, node: int, seen0: set<int>, order0: seq<int>,
                  ghost stack: seq<int>, ghost disc0: map<int, int>, ghost fin0: map<int, int>, ghost clock0: int)
    returns (seen: set<int>, order: seq<int>, ghost disc: map<int, int>, ghost fin: map<int, int>, ghost clock: int)
    requires Lists(lists, g) && Closed(g, g.Keys) && node in g && stack != [] && stack[|stack| - 1] == node
    requires Searching(g, g.Keys, seen0, stack, order0, disc0, fin0, clock0)
    ensures Searching(g, g.Keys, seen, stack[..|stack| - 1], order, disc, fin, clock)
    ensures seen0 <= seen
    decreases |g.Keys - seen0|, 1
  {
    seen, order, disc, fin, clock := seen0, order0, disc0, fin0, clock0;
    var next := lists[node];
    assert Elems(next) == Succ(g, node);
    for j := 0 to |next|
      invariant Searching(g, g.Keys, seen, stack, order, disc, fin, clock)
      invariant seen0 <= seen
      invariant forall t :: 0 <= t < j ==> next[t] in seen
    {
      var v := next[j];
      if v !in seen {
        assert v in Succ(g, node);
        SubsetCard(g.Keys - seen, g.Keys - seen0);
        ghost var seen1 := seen;
        seen, order, disc, fin, clock := Loop1Visit(g, lists, v, seen, order, stack, disc, fin, clock);
        SeenUpTo(next, j, seen1, seen);
      }
    }
    NoneLeft(Succ(g, node), seen);
    SearchFinish(g, g.Keys, seen, stack, order, disc, fin, clock);
    order := order + [node];
    disc, fin, clock := disc, fin[node := clock], clock + 1;
  }

  /** A successor v of the node on top of the stack, not seen yet: discovered, marked
      seen and searched by the dfs of loop1. */
  method Loop1Visit(ghost g: map<int, set<int>>, lists: map<int, seq<int>>, v: int, seen0: set<int>, order0: seq<int>,
                    ghost stack: seq<int>, ghost disc0: map<int, int>, ghost fin0: map<int, int>, ghost clock0: int)
    returns (seen: set<int>, order: seq<int>, ghost disc: map<int, int>, ghost fin: map<int, int>, ghost clock: int)
    requires Lists(lists, g) && Closed(g, g.Keys) && stack != [] && v in Succ(g, stack[|stack| - 1])
    requires v !in seen0 && Searching(g, g.Keys, seen0, stack, order0, disc0, fin0, clock0)
    ensures Searching(g, g.Keys, seen, stack, order, disc, fin, clock)
    ensures seen0 <= seen && v in seen
    decreases |g.Keys - seen0|, 0
  {
    assert v in g;
    SearchDiscover(g, g.Keys, seen0, stack, order0, disc0, fin0, clock0, v);
    Fewer(g.Keys, seen0, seen0 + {v}, v);
    seen, order, disc, fin, clock := Loop1Dfs(g, lists, v, seen0 + {v}, order0, stack + [v], disc0[v := clock0], fin0, clock0 + 1);
    assert (stack + [v])[..|stack|] == stack;
  }

  /** The clause lines read one after another, from no nodes at all. */
  method ReadClauses(input: seq<(int, int)>)
    returns (ns: seq<int>, m: map<int, seq<int>>, rm: map<int, seq<int>>,
             ghost f: map<int, set<int>>, ghost r: map<int, set<int>>)
    ensures Wellformed(ns, m, rm, f, r, input)
  {
    ns, m, rm, f, r := [], map[], map[], map[], map[];
    for i := 0 to |input|
      invariant Wellformed(ns, m, rm, f, r, input[..i])
    {
      ns, m, rm, f, r := ReadLine(ns, m, rm, f, r, input, i);
    }
    assert input[..|input|] == input;
  }

  /** Reading the clause on line i after those before it. */
  method ReadLine(ns: seq<int>, m: map<int, seq<int>>, rm: map<int, seq<int>>,
                  ghost f: map<int, set<int>>, ghost r: map<int, set<int>>, input: seq<(int, int)>, i: int)
    returns (ns': seq<int>, m': map<int, seq<int>>, rm': map<int, seq<int>>,
             ghost f': map<int, set<int>>, ghost r': map<int, set<int>>)
    requires 0 <= i < |input| && Wellformed(ns, m, rm, f, r, input[..i])
    ensures Wellformed(ns', m', rm', f', r', input[..i + 1])
  {
    assert input[..i + 1] == input[..i] + [(input[i].0, input[i].1)];
    NegationsOpened(ns, m, rm, f, r, input[..i], input[i].0, input[i].1);
    ns', m', rm', f', r' := ReadClause(ns, m, rm, f, r, input[..i], input[i].0, input[i].1);
  }

  class SCC {
    /** The keys of the nodes dictionary, in insertion order. */
    var nodes: seq<int>
    /** The adj list of the node of every literal. */
    var adj: map<int, seq<int>>
    /** The reverseAdj list of the node of every literal. */
    var reverseAdj: map<int, seq<int>>
    /** The number of variables, from the first line of the input. */
    var nodeCount: int
    /** The graph the adj lists hold, and its reversal. */
    ghost var forward: map<int, set<int>>
    ghost var reverse: map<int, set<int>>
    /** The clauses read so far. */
    ghost var clauses: seq<(int, int)>

    ghost predicate Valid()
      reads this
    {
      Wellformed(nodes, adj, reverseAdj, forward, reverse, clauses)
    }

    /** The part of Valid() that the searches use: the lists hold a graph and its
        reversal over the nodes. */
    ghost predicate Searchable()
      reads this
    {
      Transposed(nodes, forward, reverse) && Lists(adj, forward) && Lists(reverseAdj, reverse)
    }

    /** Reading the input: the number of variables, then one clause per line. */
    constructor (count: int, input: seq<(int, int)>)
      ensures Valid() && nodeCount == count && clauses == input
    {
      var ns, m, rm, f, r := ReadClauses(input);
      nodes, adj, reverseAdj, nodeCount := ns, m, rm, count;
      forward, reverse, clauses := f, r, input;
    }

    /** loop1: a search of the reversed graph from every node not seen yet, in the order
        of the nodes; order lists every node once, in the order the searches finish
        them. */
    method Loop1() returns (order: seq<int>)
      requires Searchable()
      ensures Distinct(order) && forall x :: x in order <==> x in nodes
      ensures FinishOrdered(reverse, order)
    {
      order := Loop1Search(nodes, reverse, reverseAdj);
    }

    /** loop2: the order popped from its end; a node not seen yet opens a new component,
        numbered from 1, whose dfs labels the nodes it reaches that no earlier component
        took. Labels never grow along an edge; once the order covers the nodes every
        node has one, and once it is the finishing order of the reversed graph, two
        nodes share a label exactly when they are strongly connected. */
    method Loop2(order: seq<int>) returns (sccs: map<int, int>, ghost leaders: seq<int>)
      requires Searchable() && forall x :: x in order ==> x in forward
      ensures Descending(forward, sccs)
      ensures (forall x :: x in nodes ==> x in order) ==> Numbered(forward.Keys, sccs, leaders)
      ensures FinishOrdered(reverse, order) ==> SameLabelSameComponent(forward, sccs)
    {
      var seen: set<int> := {};
      sccs := map[];
      leaders := [];
      var component := 0;
      var rest := order;
      LabelledStart(forward, forward.Keys, order);
      while rest != []
        invariant |rest| <= |order| && rest == order[..|rest|]
        invariant Labelled(forward, forward.Keys, order, |rest|, seen, sccs, leaders)
        invariant component == |leaders|
      {
        var k := |rest| - 1;
        var v := rest[k];
        assert v == order[k];
        rest := rest[..k];
        if v !in seen {
          component := component + 1;
          ReachesSelf(forward, v);
          var claimed, ids := Loop2Dfs(v, seen, sccs, component, v);
          LabelledClaim(forward, forward.Keys, order, k, seen, sccs, leaders, claimed, ids);
          seen, sccs, leaders := claimed, ids, leaders + [v];
        } else {
          LabelledSkip(forward, forward.Keys, order, k, seen, sccs, leaders);
        }
      }
      LabelsDescend(forward, forward.Keys, sccs, leaders);
      if forall x :: x in nodes ==> x in order {
        LabelledDone(forward, forward.Keys, order, seen, sccs, leaders);
      }
      if FinishOrdered(reverse, order) {
        LabelsAreComponents(forward, reverse, forward.Keys, order, sccs, leaders);
      }
    }

    /** The dfs of loop2: mark node seen, search every successor not seen yet, then label
        node with the component. The ghost root is the node the component started from;
        what the call adds to seen is reached from root, has all its successors seen,
        and is labelled with the component. */
    method Loop2Dfs(node: int, seen0: set<int>, ids0: map<int, int>, component: int, ghost root: int)
      returns (seen: set<int>, ids: map<int, int>)
      requires Searchable() && node in forward && node !in seen0 && seen0 <= forward.Keys
      requires Reaches(forward, root, node)
      ensures Grown(forward, forward.Keys, root, seen0, seen, ids0, ids, component)
      ensures node in seen
      decreases |forward.Keys - seen0|
    {
      seen := seen0 + {node};
      ids := ids0;
      GrownNone(forward, forward.Keys, root, seen, ids, component);
      var next := adj[node];
      assert Elems(next) == Succ(forward, node);
      for j := 0 to |next|
        invariant Grown(forward, forward.Keys, root, seen0 + {node}, seen, ids0, ids, component)
        invariant forall t :: 0 <= t < j ==> next[t] in seen
      {
        var a := next[j];
        if a !in seen {
          ClosedStep(forward, forward.Keys, node, a);
          ReachesNext(forward, root, node, a);
          Fewer(forward.Keys, seen0, seen, node);
          ghost var seen1, ids1 := seen, ids;
          seen, ids := Loop2Dfs(a, seen, ids, component, root);
          GrownTrans(forward, forward.Keys, root, seen0 + {node}, seen1, seen, ids0, ids1, ids, component);
          SeenUpTo(next, j, seen1, seen);
        }
      }
      GrownFinish(forward, forward.Keys, root, seen0, node, seen, ids0, ids, component);
      ids := ids[node := component];
    }

    /** check2SAT: variables 1 to nodeCount in turn; one whose literal has a label but
        whose negation has none makes the lookup fail (None), one sharing its label with
        its negation gives false, and true once every variable passes. */
    method Check2Sat(sccs: map<int, int>) returns (r: Option<bool>)
      ensures r == Some(true) <==> forall i :: 1 <= i <= nodeCount ==> Passes(sccs, i)
      ensures r == Some(false) ==>
                exists i :: 1 <= i <= nodeCount && Clash(sccs, i) && forall j :: 1 <= j < i ==> Passes(sccs, j)
      ensures r == None ==>
                exists i :: 1 <= i <= nodeCount && Missing(sccs, i) && forall j :: 1 <= j < i ==> Passes(sccs, j)
    {
      var i := 1;
      while i <= nodeCount
        invariant 1 <= i && (i <= nodeCount + 1 || i == 1)
        invariant forall j :: 1 <= j < i ==> Passes(sccs, j)
      {
        if i in sccs {
          if -i !in sccs {
            assert Missing(sccs, i) && !Passes(sccs, i);
            return None;
          }
          if sccs[i] == sccs[-i] {
            assert Clash(sccs, i) && !Passes(sccs, i);
            return Some(false);
          }
        }
        i := i + 1;
      }
      return Some(true);
    }

    /** The script: loop1, loop2 on its order, then check2SAT. The lookup never fails;
        false means the clauses cannot be satisfied, and true, for clauses over the
        variables 1 to nodeCount, means they can. */
    method Solve() returns (r: Option<bool>)
      requires Valid()
      ensures r != None
      ensures NonZero(clauses) && r == Some(false) ==> !Satisfiable(clauses)
      ensures NonZero(clauses) && Within(clauses, nodeCount) && r == Some(true) ==> Satisfiable(clauses)
    {
      var order := Loop1();
      ghost var leaders;
      var sccs;
      sccs, leaders := Loop2(order);
      assert forall x :: x in sccs <==> x in forward;
      r := Check2Sat(sccs);
      NoneMissing(adj, forward, sccs);
      if r == Some(false) && NonZero(clauses) {
        ClashUnsatisfiable(forward, clauses, sccs, nodeCount);
      }
      if r == Some(true) && NonZero(clauses) && Within(clauses, nodeCount) {
        PassingSatisfiable(adj, forward, clauses, sccs, nodeCount);
      }
    }
  }
}
