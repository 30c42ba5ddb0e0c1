/** Why the two passes of Kosaraju's algorithm find the strongly connected components:
    the second pass searches the graph from the nodes in reverse finishing order of a
    depth-first search of the reversed graph, and each search claims exactly the
    component of the node it starts from. */
module Kosaraju {
  import opened Reachability
  import opened SearchTimes

  /** The nodes that u reaches and that reach u back. */
  ghost function Component(g: map<int, set<int>>, nodes: set<int>, u: int): set<int>
  {
    set v | v in nodes && Reaches(g, u, v) && Reaches(g, v, u)
  }

  /** An edge in front of a path. */
  lemma ReachesPrepend(g: map<int, set<int>>, u: int, v: int, w: int)
    requires v in Succ(g, u) && Reaches(g, v, w)
    ensures Reaches(g, u, w)
  {
    var p :| IsPath(g, p) && p[0] == v && p[|p| - 1] == w;
    var q := [u] + p;
    forall k | 0 <= k < |q| - 1 ensures q[k + 1] in Succ(g, q[k]) {
      if k > 0 {
        assert q[k] == p[k - 1] && q[k + 1] == p[k];
      }
    }
    assert IsPath(g, q) && q[0] == u && q[|q| - 1] == w;
  }

  /** A path of fwd, walked backwards, is a path of rev. */
  lemma {:induction false} PathBackwards(fwd: map<int, set<int>>, rev: map<int, set<int>>, p: seq<int>)
    requires Reversed(fwd, rev) && IsPath(fwd, p)
    ensures Reaches(rev, p[|p| - 1], p[0])
  {
    if |p| == 1 {
      ReachesSelf(rev, p[0]);
    } else {
      var q := p[..|p| - 1];
      assert IsPath(fwd, q) by {
        forall k | 0 <= k < |q| - 1 ensures q[k + 1] in Succ(fwd, q[k]) {
          assert q[k] == p[k] && q[k + 1] == p[k + 1];
        }
      }
      PathBackwards(fwd, rev, q);
      assert p[|p| - 1] in Succ(fwd, q[|q| - 1]);
      ReachesPrepend(rev, p[|p| - 1], q[|q| - 1], p[0]);
    }
  }

  /** u reaches v in fwd exactly when v reaches u in rev. */
  lemma ReachesReversed(fwd: map<int, set<int>>, rev: map<int, set<int>>, u: int, v: int)
    requires Reversed(fwd, rev)
    ensures Reaches(fwd, u, v) <==> Reaches(rev, v, u)
  {
    if Reaches(fwd, u, v) {
      var p :| IsPath(fwd, p) && p[0] == u && p[|p| - 1] == v;
      PathBackwards(fwd, rev, p);
    }
    if Reaches(rev, v, u) {
      assert Reversed(rev, fwd);
      var p :| IsPath(rev, p) && p[0] == v && p[|p| - 1] == u;
      PathBackwards(rev, fwd, p);
    }
  }

  /** What the nodes reach is a set no edge leaves. */
  lemma ReachSetClosed(g: map<int, set<int>>, nodes: set<int>, u: int)
    requires Closed(g, nodes)
    ensures Closed(g, ReachSet(g, nodes, u))
  {
    forall x, y | x in ReachSet(g, nodes, u) && y in Succ(g, x) ensures y in ReachSet(g, nodes, u) {
      ReachesNext(g, u, x, y);
      ClosedStep(g, nodes, x, y);
    }
  }

  lemma {:induction false} ReachUnionClosed(g: map<int, set<int>>, nodes: set<int>, leaders: seq<int>)
    requires Closed(g, nodes)
    ensures Closed(g, ReachUnion(g, nodes, leaders))
  {
    if leaders != [] {
      ReachUnionClosed(g, nodes, leaders[..|leaders| - 1]);
      ReachSetClosed(g, nodes, leaders[|leaders| - 1]);
    }
  }

  /** Each leader's nodes are among those the leaders reach together. */
  lemma {:induction false} ReachUnionHas(g: map<int, set<int>>, nodes: set<int>, leaders: seq<int>, i: int)
    requires 0 <= i < |leaders|
    ensures ReachSet(g, nodes, leaders[i]) <= ReachUnion(g, nodes, leaders)
  {
    if i < |leaders| - 1 {
      var t := leaders[..|leaders| - 1];
      ReachUnionHas(g, nodes, t, i);
      assert t[i] == leaders[i];
    }
  }

  /** A node the leaders reach is claimed by the first leader that reaches it. */
  lemma {:induction false} ReachUnionFirst(g: map<int, set<int>>, nodes: set<int>, leaders: seq<int>, x: int)
    requires x in ReachUnion(g, nodes, leaders)
    ensures exists i :: 0 <= i < |leaders| && x in ReachSet(g, nodes, leaders[i]) - ReachUnion(g, nodes, leaders[..i])
  {
    var t := leaders[..|leaders| - 1];
    if x in ReachUnion(g, nodes, t) {
      ReachUnionFirst(g, nodes, t, x);
      var i :| 0 <= i < |t| && x in ReachSet(g, nodes, t[i]) - ReachUnion(g, nodes, t[..i]);
      assert t[i] == leaders[i] && t[..i] == leaders[..i];
    } else {
      assert leaders[..|leaders| - 1] == t;
    }
  }

  /** The search from the last node of the order outside a claimed set that no edge
      leaves, with everything after it claimed, claims exactly that node's component. */
  lemma ClaimIsComponent(fwd: map<int, set<int>>, rev: map<int, set<int>>, nodes: set<int>, order: seq<int>,
                         claimed: set<int>, p: int)
    requires Reversed(fwd, rev) && FinishOrdered(rev, order) && Closed(fwd, claimed)
    requires 0 <= p < |order| && order[p] !in claimed
    requires forall q :: p < q < |order| ==> order[q] in claimed
    ensures ReachSet(fwd, nodes, order[p]) - claimed == Component(fwd, nodes, order[p])
  {
    var u := order[p];
    forall v | v in ReachSet(fwd, nodes, u) - claimed ensures Reaches(fwd, v, u) {
      if !Reaches(fwd, v, u) {
        ReachesReversed(fwd, rev, u, v);
        ReachesReversed(fwd, rev, v, u);
        var j :| p < j < |order| && Reaches(rev, v, order[j]);
        ReachesReversed(fwd, rev, order[j], v);
        ClosedReaches(fwd, claimed, order[j], v);
        assert false;
      }
    }
    forall v | v in Component(fwd, nodes, u) ensures v !in claimed {
      if v in claimed {
        ClosedReaches(fwd, claimed, v, u);
        assert false;
      }
    }
  }

  /** Each leader the second pass picks claims exactly its component. */
  lemma ClaimsAreComponents(fwd: map<int, set<int>>, rev: map<int, set<int>>, nodes: set<int>, order: seq<int>,
                            leaders: seq<int>, i: int)
    requires Reversed(fwd, rev) && Closed(fwd, nodes) && FinishOrdered(rev, order)
    requires ChosenFromBack(fwd, nodes, order, leaders) && 0 <= i < |leaders|
    ensures ReachSet(fwd, nodes, leaders[i]) - ReachUnion(fwd, nodes, leaders[..i])
            == Component(fwd, nodes, leaders[i])
  {
    var claimed := ReachUnion(fwd, nodes, leaders[..i]);
    assert LatestOutside(order, leaders[i], claimed);
    var p :| 0 <= p < |order| && order[p] == leaders[i] && forall q :: p < q < |order| ==> order[q] in claimed;
    ReachUnionClosed(fwd, nodes, leaders[..i]);
    ClaimIsComponent(fwd, rev, nodes, order, claimed, p);
  }

  /** The counts are keyed by the leaders, every leader is counted with the size of its
      component, no two leaders share a component, and every node lies in the component
      of one of them. */
  ghost predicate ComponentCounts(g: map<int, set<int>>, nodes: set<int>, counts: map<int, int>, leaders: seq<int>)
  {
    (forall x :: x in counts <==> x in leaders)
    && (forall i :: 0 <= i < |leaders| ==>
          leaders[i] in counts && counts[leaders[i]] == |Component(g, nodes, leaders[i])|)
    && (forall i, j :: 0 <= i < j < |leaders| ==> leaders[j] !in Component(g, nodes, leaders[i]))
    && (forall x :: x in nodes ==> exists i :: 0 <= i < |leaders| && x in Component(g, nodes, leaders[i]))
  }

  /** Kosaraju's theorem for the counts of the second pass, once its leaders reach every
      node. */
  lemma CountsAreComponents(fwd: map<int, set<int>>, rev: map<int, set<int>>, nodes: set<int>, order: seq<int>,
                            counts: map<int, int>, leaders: seq<int>)
    requires Reversed(fwd, rev) && Closed(fwd, nodes) && FinishOrdered(rev, order)
    requires CountsClaims(fwd, nodes, counts, leaders) && ChosenFromBack(fwd, nodes, order, leaders)
    requires nodes <= ReachUnion(fwd, nodes, leaders)
    ensures ComponentCounts(fwd, nodes, counts, leaders)
  {
    forall i | 0 <= i < |leaders|
      ensures leaders[i] in counts && counts[leaders[i]] == |Component(fwd, nodes, leaders[i])|
    {
      ClaimsAreComponents(fwd, rev, nodes, order, leaders, i);
      assert counts[leaders[i]] == ClaimSize(fwd, nodes, leaders, i);
    }
    forall i, j | 0 <= i < j < |leaders| ensures leaders[j] !in Component(fwd, nodes, leaders[i]) {
      ReachUnionHas(fwd, nodes, leaders[..j], i);
      assert leaders[..j][i] == leaders[i];
    }
    forall x | x in nodes
      ensures exists i :: 0 <= i < |leaders| && x in Component(fwd, nodes, leaders[i])
    {
      ReachUnionFirst(fwd, nodes, leaders, x);
      var i :| 0 <= i < |leaders| && x in ReachSet(fwd, nodes, leaders[i]) - ReachUnion(fwd, nodes, leaders[..i]);
      ClaimsAreComponents(fwd, rev, nodes, order, leaders, i);
    }
  }
}
