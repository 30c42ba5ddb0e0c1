/** Discovery and finishing times of a depth-first search, kept as ghost state beside
    the search stack and the finishing order. The times nest like parentheses: once the
    search is over, a node that some v reaches without reaching v back finishes before
    some node that v reaches. That is the fact the second pass of Kosaraju's algorithm
    rests on. */
module SearchTimes {
  import opened Reachability

  /** The state of a search in g: stack is the path of nodes being explored, order lists
      the finished nodes, disc and fin give every discovered and every finished node its
      time, and clock is the next time to hand out. */
  ghost predicate Dfs(g: map<int, set<int>>, stack: seq<int>, order: seq<int>,
                      disc: map<int, int>, fin: map<int, int>, clock: int)
  {
    Shape(stack, order, disc, fin) && Clocked(stack, order, disc, fin, clock)
    && (stack != [] ==> IsPath(g, stack))
    && EdgesSeen(g, disc, fin) && Nested(g, disc, fin) && StackNested(g, stack, disc, fin)
  }

  /** A search of g over the nodes keys, with seen the set of nodes it has discovered. */
  ghost predicate Searching(g: map<int, set<int>>, keys: set<int>, seen: set<int>, stack: seq<int>, order: seq<int>,
                            disc: map<int, int>, fin: map<int, int>, clock: int)
  {
    Dfs(g, stack, order, disc, fin, clock) && (forall x :: x in seen <==> x in disc) && seen <= keys
  }

  /** Each node is on the stack or in the order at most once, the finished nodes are
      those of the order, and the discovered ones are the finished ones and the stack. */
  ghost predicate Shape(stack: seq<int>, order: seq<int>, disc: map<int, int>, fin: map<int, int>)
  {
    Distinct(order) && Distinct(stack)
    && (forall x :: x in fin <==> x in order)
    && (forall i :: 0 <= i < |order| ==> order[i] in fin)
    && (forall x :: x in disc <==> x in fin || x in stack)
    && (forall i :: 0 <= i < |stack| ==> stack[i] in disc && stack[i] !in fin)
  }

  /** Times are distinct and below the clock, a node finishes after it was discovered,
      the order is by finishing time and the stack by discovery time. */
  ghost predicate Clocked(stack: seq<int>, order: seq<int>, disc: map<int, int>, fin: map<int, int>, clock: int)
    requires Shape(stack, order, disc, fin)
  {
    (forall x :: x in disc ==> disc[x] < clock)
    && (forall x :: x in fin ==> disc[x] < fin[x] < clock)
    && (forall x, y :: x in disc && y in disc && disc[x] == disc[y] ==> x == y)
    && (forall i, j :: 0 <= i < j < |order| ==> fin[order[i]] < fin[order[j]])
    && (forall i, j :: 0 <= i < j < |stack| ==> disc[stack[i]] < disc[stack[j]])
  }

  /** A node finishes only when every successor of it has been discovered. */
  ghost predicate EdgesSeen(g: map<int, set<int>>, disc: map<int, int>, fin: map<int, int>)
    requires forall x :: x in fin ==> x in disc
  {
    forall x, y :: x in fin && y in Succ(g, x) ==> y in disc && disc[y] < fin[x]
  }

  lemma EdgeSeen(g: map<int, set<int>>, disc: map<int, int>, fin: map<int, int>, x: int, y: int)
    requires (forall x :: x in fin ==> x in disc) && EdgesSeen(g, disc, fin)
    requires x in fin && y in Succ(g, x)
    ensures y in disc && disc[y] < fin[x]
  {
  }

  /** Two finished nodes: the one discovered later either finishes inside the other's
      interval, and is reached from it, or is discovered after the other finished. */
  ghost predicate Nested(g: map<int, set<int>>, disc: map<int, int>, fin: map<int, int>)
    requires forall x :: x in fin ==> x in disc
  {
    forall x, y :: x in fin && y in fin && disc[x] < disc[y] ==>
      (fin[y] < fin[x] && Reaches(g, x, y)) || fin[x] < disc[y]
  }

  /** A finished node discovered after a node of the stack is reached from it; one
      discovered before it had finished before that node was discovered. */
  ghost predicate StackNested(g: map<int, set<int>>, stack: seq<int>, disc: map<int, int>, fin: map<int, int>)
    requires forall x :: x in fin ==> x in disc
    requires forall i :: 0 <= i < |stack| ==> stack[i] in disc
  {
    forall i, x :: 0 <= i < |stack| && x in fin ==>
      (disc[stack[i]] < disc[x] ==> Reaches(g, stack[i], x))
      && (disc[x] < disc[stack[i]] ==> fin[x] < disc[stack[i]])
  }

  /** v reaches a node that finishes after order[i] whenever it reaches order[i] and is
      not reached from it. */
  ghost predicate FinishOrdered(g: map<int, set<int>>, order: seq<int>)
  {
    forall i, v :: 0 <= i < |order| && Reaches(g, v, order[i]) && !Reaches(g, order[i], v) ==>
      exists j :: i < j < |order| && Reaches(g, v, order[j])
  }
}

module Finishing {
  import opened Reachability
  import opened SearchTimes

  lemma DfsStart(g: map<int, set<int>>)
    ensures Dfs(g, [], [], map[], map[], 0)
  {
  }

  /** The two moves of a search that keeps its discovered nodes in a set: discovering the
      node n, or finishing the top of the stack when none of its successors is new. */
  lemma SearchDiscover(g: map<int, set<int>>, keys: set<int>, seen: set<int>, stack: seq<int>, order: seq<int>,
                       disc: map<int, int>, fin: map<int, int>, clock: int, n: int)
    requires Searching(g, keys, seen, stack, order, disc, fin, clock) && n in keys && n !in seen
    requires stack != [] ==> n in Succ(g, stack[|stack| - 1])
    ensures Searching(g, keys, seen + {n}, stack + [n], order, disc[n := clock], fin, clock + 1)
    ensures |keys - (seen + {n})| == |keys - seen| - 1
  {
    DfsDiscover(g, stack, order, disc, fin, clock, n);
    Unvisited(keys, seen, n);
  }

  lemma SearchFinish(g: map<int, set<int>>, keys: set<int>, seen: set<int>, stack: seq<int>, order: seq<int>,
                     disc: map<int, int>, fin: map<int, int>, clock: int)
    requires Searching(g, keys, seen, stack, order, disc, fin, clock) && stack != []
    requires Succ(g, stack[|stack| - 1]) - seen == {}
    ensures Searching(g, keys, seen, stack[..|stack| - 1], order + [stack[|stack| - 1]], disc,
                      fin[stack[|stack| - 1] := clock], clock + 1)
  {
    AllIn(Succ(g, stack[|stack| - 1]), seen);
    DfsFinish(g, stack, order, disc, fin, clock);
  }

  /** Discovering n, a successor of the top of the stack, or a new root when the stack is
      empty. */
  lemma DfsDiscover(g: map<int, set<int>>, stack: seq<int>, order: seq<int>,
                    disc: map<int, int>, fin: map<int, int>, clock: int, n: int)
    requires Dfs(g, stack, order, disc, fin, clock) && n !in disc
    requires stack != [] ==> n in Succ(g, stack[|stack| - 1])
    ensures Dfs(g, stack + [n], order, disc[n := clock], fin, clock + 1)
  {
    ShapeDiscover(stack, order, disc, fin, n, clock);
    ClockedDiscover(stack, order, disc, fin, clock, n);
    if stack != [] {
      PathSnoc(g, stack, n);
    }
    EdgesSeenDiscover(g, disc, fin, n, clock);
    NestedDiscover(g, disc, fin, n, clock);
    StackNestedDiscover(g, stack, disc, fin, clock, n);
  }

  lemma ShapeDiscover(stack: seq<int>, order: seq<int>, disc: map<int, int>, fin: map<int, int>, n: int, t: int)
    requires Shape(stack, order, disc, fin) && n !in disc
    ensures Shape(stack + [n], order, disc[n := t], fin)
  {
    var s := stack + [n];
    DistinctSnoc(stack, n);
    assert forall i :: 0 <= i < |stack| ==> s[i] == stack[i];
    assert s[|stack|] == n;
  }

  lemma ClockedDiscover(stack: seq<int>, order: seq<int>, disc: map<int, int>, fin: map<int, int>, clock: int, n: int)
    requires Shape(stack, order, disc, fin) && Clocked(stack, order, disc, fin, clock) && n !in disc
    ensures Shape(stack + [n], order, disc[n := clock], fin)
    ensures Clocked(stack + [n], order, disc[n := clock], fin, clock + 1)
  {
    ShapeDiscover(stack, order, disc, fin, n, clock);
    var s := stack + [n];
    assert forall i :: 0 <= i < |stack| ==> s[i] == stack[i];
    assert s[|stack|] == n;
  }

  lemma EdgesSeenDiscover(g: map<int, set<int>>, disc: map<int, int>, fin: map<int, int>, n: int, t: int)
    requires (forall x :: x in fin ==> x in disc) && EdgesSeen(g, disc, fin) && n !in disc
    ensures EdgesSeen(g, disc[n := t], fin)
  {
    forall x, y | x in fin && y in Succ(g, x) ensures y in disc[n := t] && disc[n := t][y] < fin[x] {
      EdgeSeen(g, disc, fin, x, y);
    }
  }

  lemma NestedDiscover(g: map<int, set<int>>, disc: map<int, int>, fin: map<int, int>, n: int, t: int)
    requires (forall x :: x in fin ==> x in disc) && Nested(g, disc, fin) && n !in disc
    ensures Nested(g, disc[n := t], fin)
  {
  }

  lemma StackNestedDiscover(g: map<int, set<int>>, stack: seq<int>, disc: map<int, int>, fin: map<int, int>,
                            clock: int, n: int)
    requires (forall x :: x in fin ==> x in disc) && (forall i :: 0 <= i < |stack| ==> stack[i] in disc)
    requires forall x :: x in disc ==> disc[x] < clock
    requires forall x :: x in fin ==> fin[x] < clock
    requires StackNested(g, stack, disc, fin) && n !in disc
    ensures StackNested(g, stack + [n], disc[n := clock], fin)
  {
    var s, d := stack + [n], disc[n := clock];
    forall i, x | 0 <= i < |s| && x in fin
      ensures (d[s[i]] < d[x] ==> Reaches(g, s[i], x)) && (d[x] < d[s[i]] ==> fin[x] < d[s[i]])
    {
      if i < |stack| {
        assert s[i] == stack[i];
      }
    }
  }

  /** Finishing the top of the stack once all its successors are discovered. */
  lemma DfsFinish(g: map<int, set<int>>, stack: seq<int>, order: seq<int>,
                  disc: map<int, int>, fin: map<int, int>, clock: int)
    requires Dfs(g, stack, order, disc, fin, clock) && stack != []
    requires forall y :: y in Succ(g, stack[|stack| - 1]) ==> y in disc
    ensures Dfs(g, stack[..|stack| - 1], order + [stack[|stack| - 1]], disc,
                fin[stack[|stack| - 1] := clock], clock + 1)
  {
    var rest := stack[..|stack| - 1];
    ClockedFinish(stack, order, disc, fin, clock);
    if rest != [] {
      assert stack == rest + [stack[|stack| - 1]];
      assert IsPath(g, rest);
    }
    EdgesSeenFinish(g, stack[|stack| - 1], disc, fin, clock);
    NestedFinish(g, stack, disc, fin, clock);
    StackNestedFinish(g, stack, disc, fin, clock);
  }

  lemma ShapeFinish(stack: seq<int>, order: seq<int>, disc: map<int, int>, fin: map<int, int>, t: int)
    requires Shape(stack, order, disc, fin) && stack != []
    ensures Shape(stack[..|stack| - 1], order + [stack[|stack| - 1]], disc, fin[stack[|stack| - 1] := t])
  {
    var top, rest := stack[|stack| - 1], stack[..|stack| - 1];
    var o := order + [top];
    assert stack == rest + [top];
    assert top !in order;
    DistinctSnoc(order, top);
    assert forall i :: 0 <= i < |order| ==> o[i] == order[i];
    assert o[|order|] == top;
    assert forall i :: 0 <= i < |rest| ==> rest[i] == stack[i];
  }

  lemma ClockedFinish(stack: seq<int>, order: seq<int>, disc: map<int, int>, fin: map<int, int>, clock: int)
    requires Shape(stack, order, disc, fin) && Clocked(stack, order, disc, fin, clock) && stack != []
    ensures Shape(stack[..|stack| - 1], order + [stack[|stack| - 1]], disc, fin[stack[|stack| - 1] := clock])
    ensures Clocked(stack[..|stack| - 1], order + [stack[|stack| - 1]], disc, fin[stack[|stack| - 1] := clock], clock + 1)
  {
    ShapeFinish(stack, order, disc, fin, clock);
    var top, rest := stack[|stack| - 1], stack[..|stack| - 1];
    var o := order + [top];
    assert forall i :: 0 <= i < |order| ==> o[i] == order[i];
    assert o[|order|] == top;
    assert forall i :: 0 <= i < |rest| ==> rest[i] == stack[i];
  }

  lemma EdgesSeenFinish(g: map<int, set<int>>, top: int, disc: map<int, int>, fin: map<int, int>, clock: int)
    requires (forall x :: x in fin ==> x in disc) && EdgesSeen(g, disc, fin) && top in disc
    requires forall x :: x in disc ==> disc[x] < clock
    requires forall y :: y in Succ(g, top) ==> y in disc
    ensures EdgesSeen(g, disc, fin[top := clock])
  {
    forall x, y | x in fin[top := clock] && y in Succ(g, x) ensures y in disc && disc[y] < fin[top := clock][x] {
      if x != top {
        EdgeSeen(g, disc, fin, x, y);
      }
    }
  }

  lemma NestedFinish(g: map<int, set<int>>, stack: seq<int>, disc: map<int, int>, fin: map<int, int>, clock: int)
    requires (forall x :: x in fin ==> x in disc) && (forall i :: 0 <= i < |stack| ==> stack[i] in disc)
    requires stack != [] && stack[|stack| - 1] !in fin
    requires forall x :: x in fin ==> fin[x] < clock
    requires forall x, y :: x in disc && y in disc && disc[x] == disc[y] ==> x == y
    requires Nested(g, disc, fin) && StackNested(g, stack, disc, fin)
    ensures Nested(g, disc, fin[stack[|stack| - 1] := clock])
  {
    var top := stack[|stack| - 1];
    var f := fin[top := clock];
    forall x, y | x in f && y in f && disc[x] < disc[y]
      ensures (f[y] < f[x] && Reaches(g, x, y)) || f[x] < disc[y]
    {
      if x == top {
        assert y != top;
      } else if y == top {
        assert x != top;
      }
    }
  }

  lemma StackNestedFinish(g: map<int, set<int>>, stack: seq<int>, disc: map<int, int>, fin: map<int, int>,
                          clock: int)
    requires (forall x :: x in fin ==> x in disc) && (forall i :: 0 <= i < |stack| ==> stack[i] in disc)
    requires stack != [] && IsPath(g, stack)
    requires forall x :: x in disc ==> disc[x] < clock
    requires forall i, j :: 0 <= i < j < |stack| ==> disc[stack[i]] < disc[stack[j]]
    requires StackNested(g, stack, disc, fin)
    ensures StackNested(g, stack[..|stack| - 1], disc, fin[stack[|stack| - 1] := clock])
  {
    var top, rest := stack[|stack| - 1], stack[..|stack| - 1];
    var f := fin[top := clock];
    forall i, x | 0 <= i < |rest| && x in f
      ensures (disc[rest[i]] < disc[x] ==> Reaches(g, rest[i], x)) && (disc[x] < disc[rest[i]] ==> f[x] < disc[rest[i]])
    {
      assert rest[i] == stack[i];
      if x == top {
        PathReaches(g, stack, i, |stack| - 1);
      }
    }
  }

  /** Along a path into u whose nodes all finish no later than u, u reaches every node
      of the path, each discovered no earlier than u. */
  lemma {:induction false} NestedPath(g: map<int, set<int>>, disc: map<int, int>, fin: map<int, int>,
                                      p: seq<int>, k: int)
    requires (forall x :: x in fin ==> x in disc) && (forall x :: x in fin ==> disc[x] < fin[x])
    requires forall x, y :: x in disc && y in disc && disc[x] == disc[y] ==> x == y
    requires forall x, y :: x in fin && y in fin && fin[x] == fin[y] ==> x == y
    requires EdgesSeen(g, disc, fin) && Nested(g, disc, fin)
    requires IsPath(g, p) && 0 <= k < |p|
    requires forall j :: 0 <= j < |p| ==> p[j] in fin
    requires forall j :: 0 <= j < |p| ==> fin[p[j]] <= fin[p[|p| - 1]]
    ensures disc[p[|p| - 1]] <= disc[p[k]] && Reaches(g, p[|p| - 1], p[k])
    decreases |p| - k
  {
    var u := p[|p| - 1];
    if k == |p| - 1 {
      ReachesSelf(g, u);
    } else {
      NestedPath(g, disc, fin, p, k + 1);
      assert p[k + 1] in Succ(g, p[k]);
      if p[k] != u {
        assert disc[u] < fin[p[k]] < fin[u];
        if disc[p[k]] < disc[u] {
          assert false;
        }
      } else {
        ReachesSelf(g, u);
      }
    }
  }

  /** Once every node of g is finished, the finishing order has the property the
      second pass needs. */
  lemma DfsDone(g: map<int, set<int>>, order: seq<int>, disc: map<int, int>, fin: map<int, int>, clock: int)
    requires Dfs(g, [], order, disc, fin, clock)
    requires forall x :: x in g ==> x in fin
    ensures FinishOrdered(g, order)
  {
    forall i, v | 0 <= i < |order| && Reaches(g, v, order[i]) && !Reaches(g, order[i], v)
      ensures exists j :: i < j < |order| && Reaches(g, v, order[j])
    {
      LaterReached(g, order, disc, fin, clock, i, v);
    }
  }

  lemma LaterReached(g: map<int, set<int>>, order: seq<int>, disc: map<int, int>, fin: map<int, int>, clock: int,
                     i: int, v: int)
    requires Dfs(g, [], order, disc, fin, clock)
    requires forall x :: x in g ==> x in fin
    requires 0 <= i < |order| && Reaches(g, v, order[i]) && !Reaches(g, order[i], v)
    ensures exists j :: i < j < |order| && Reaches(g, v, order[j])
  {
    var u := order[i];
    var p :| IsPath(g, p) && p[0] == v && p[|p| - 1] == u;
    assert |p| > 1;
    assert p[1] in Succ(g, p[0]);
    forall j | 0 <= j < |p| ensures p[j] in fin {
      PathFinished(g, disc, fin, p, j);
    }
    if forall j :: 0 <= j < |p| ==> fin[p[j]] <= fin[u] {
      FinInjective(order, fin);
      NestedPath(g, disc, fin, p, 0);
      assert false;
    } else {
      var j :| 0 <= j < |p| && fin[p[j]] > fin[u];
      PathReaches(g, p, 0, j);
      var m :| 0 <= m < |order| && order[m] == p[j];
      assert i < m;
    }
  }

  lemma {:induction false} PathFinished(g: map<int, set<int>>, disc: map<int, int>, fin: map<int, int>,
                                        p: seq<int>, j: int)
    requires (forall x :: x in fin ==> x in disc) && (forall x :: x in disc ==> x in fin)
    requires EdgesSeen(g, disc, fin)
    requires IsPath(g, p) && 0 <= j < |p| && p[0] in fin
    ensures p[j] in fin
  {
    if j > 0 {
      PathFinished(g, disc, fin, p, j - 1);
      assert p[j] in Succ(g, p[j - 1]);
      EdgeSeen(g, disc, fin, p[j - 1], p[j]);
    }
  }

  lemma FinInjective(order: seq<int>, fin: map<int, int>)
    requires Distinct(order) && (forall x :: x in fin <==> x in order)
    requires forall i :: 0 <= i < |order| ==> order[i] in fin
    requires forall i, j :: 0 <= i < j < |order| ==> fin[order[i]] < fin[order[j]]
    ensures forall x, y :: x in fin && y in fin && fin[x] == fin[y] ==> x == y
  {
    forall x, y | x in fin && y in fin && fin[x] == fin[y] ensures x == y {
      var a :| 0 <= a < |order| && order[a] == x;
      var b :| 0 <= b < |order| && order[b] == y;
      assert a == b;
    }
  }
}
