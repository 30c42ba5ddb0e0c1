/** scc.py: a directed graph kept as forward and reverse successor sets, and the two
    passes of Kosaraju's algorithm, each a depth-first search with an explicit stack.
    The first pass searches the reversed graph and lists the nodes in the order they
    finish; the second searches the graph from the nodes in reverse finishing order and
    counts, for every node it starts from (a leader), the nodes that leader reaches first. */
module StronglyConnected {
  import opened Reachability
  import opened SearchTimes
  import opened Finishing
  import opened Kosaraju

  class SCC {
    /** The keys of the nodes dictionary, in insertion order. */
    var nodes: seq<int>
    /** The set of successors each node keeps (its outgoing edges). */
    var forward: map<int, set<int>>
    /** The set of predecessors each node keeps (its incoming edges). */
    var reverse: map<int, set<int>>

    /** Both maps have an entry for every node and no other, edges join nodes, and the
        reverse sets are the forward sets turned round. */
    ghost predicate Valid()
      reads this
    {
      Transposed(nodes, forward, reverse)
    }

    constructor ()
      ensures Valid() && nodes == [] && forward == map[] && reverse == map[]
    {
      nodes := [];
      forward := map[];
      reverse := map[];
    }

    /** One line of the edge file: create the nodes u and v if they are new, then record
        the edge u -> v in u's forward set and v's reverse set. */
    method AddEdge(u: int, v: int)
      requires Valid()
      modifies this
      ensures Valid()
      ensures nodes == old(nodes) + (if u in old(forward) then [] else [u])
                                  + (if v in old(forward) || v == u then [] else [v])
      ensures forward.Keys == old(forward).Keys + {u, v} && reverse.Keys == forward.Keys
      ensures forall x :: Succ(forward, x) == Succ(old(forward), x) + (if x == u then {v} else {})
      ensures forall x :: Succ(reverse, x) == Succ(old(reverse), x) + (if x == v then {u} else {})
    {
      if u !in forward {
        nodes := nodes + [u];
      }
      if v !in forward && v != u {
        nodes := nodes + [v];
      }
      AddEdgeTransposed(old(nodes), forward, reverse, u, v, nodes);
      forall x ensures Succ(AddArc(forward, u, v), x) == Succ(forward, x) + (if x == u then {v} else {})
                    && Succ(AddArc(reverse, v, u), x) == Succ(reverse, x) + (if x == v then {u} else {})
      {
        AddArcSucc(forward, u, v, x);
        AddArcSucc(reverse, v, u, x);
      }
      forward := AddArc(forward, u, v);
      reverse := AddArc(reverse, v, u);
    }

    /** The two passes as the script runs them: sccs maps one node of every strongly
        connected component to the number of nodes in it. */
    method Components() returns (sccs: map<int, int>, ghost leaders: seq<int>)
      requires Valid()
      ensures ComponentCounts(forward, forward.Keys, sccs, leaders)
    {
      var order := Loop1();
      sccs, leaders := Loop2(order);
    }

    /** loop1: lists every node exactly once, in the order a depth-first search of the
        reversed graph finishes them; finishing times is the ghost record of that search. */
    method Loop1() returns (order: seq<int>)
      requires Valid()
      ensures Distinct(order) && forall x :: x in order <==> x in nodes
      ensures FinishOrdered(reverse, order)
    {
      var seen: set<int> := {};
      order := [];
      ghost var disc: map<int, int>, fin: map<int, int>, clock := map[], map[], 0;
      DfsStart(reverse);
      for i := 0 to |nodes|
        invariant Searching(reverse, forward.Keys, seen, [], order, disc, fin, clock)
        invariant forall j :: 0 <= j < i ==> nodes[j] in seen
      {
        if nodes[i] !in seen {
          ghost var seen1 := seen;
          seen, order, disc, fin, clock := FinishFrom(nodes[i], seen, order, disc, fin, clock);
          SeenUpTo(nodes, i, seen1, seen);
        }
      }
      forall x | x in nodes ensures x in order {
        var j :| 0 <= j < |nodes| && nodes[j] == x;
      }
      DfsDone(reverse, order, disc, fin, clock);
    }

    /** One search of loop1 from an unseen node: pop the top of the stack; if it has an
        unseen successor in the reversed graph, push it back with that successor on top,
        otherwise it is finished and goes to the order. */
    method FinishFrom(root: int, seen0: set<int>, order0: seq<int>,
                      ghost disc0: map<int, int>, ghost fin0: map<int, int>, ghost clock0: int)
      returns (seen: set<int>, order: seq<int>, ghost disc: map<int, int>, ghost fin: map<int, int>, ghost clock: int)
      requires Valid() && root in forward && root !in seen0
      requires Searching(reverse, forward.Keys, seen0, [], order0, disc0, fin0, clock0)
      ensures Searching(reverse, forward.Keys, seen, [], order, disc, fin, clock)
      ensures seen0 <= seen && root in seen
    {
      SearchDiscover(reverse, forward.Keys, seen0, [], order0, disc0, fin0, clock0, root);
      seen := seen0 + {root};
      var stack := [root];
      order := order0;
      disc, fin, clock := disc0[root := clock0], fin0, clock0 + 1;
      while stack != []
        invariant Searching(reverse, forward.Keys, seen, stack, order, disc, fin, clock)
        invariant seen0 <= seen && root in seen
        decreases |forward.Keys - seen|, |stack|
      {
        seen, stack, order, disc, fin, clock := FinishStep(seen, stack, order, disc, fin, clock);
      }
    }

    /** One turn of the loop1 search. */
    method FinishStep(seen1: set<int>, stack1: seq<int>, order1: seq<int>,
                      ghost disc1: map<int, int>, ghost fin1: map<int, int>, ghost clock1: int)
      returns (seen: set<int>, stack: seq<int>, order: seq<int>,
               ghost disc: map<int, int>, ghost fin: map<int, int>, ghost clock: int)
      requires Valid() && stack1 != []
      requires Searching(reverse, forward.Keys, seen1, stack1, order1, disc1, fin1, clock1)
      ensures Searching(reverse, forward.Keys, seen, stack, order, disc, fin, clock)
      ensures seen1 <= seen
      ensures |forward.Keys - seen| < |forward.Keys - seen1| || (seen == seen1 && |stack| < |stack1|)
    {
      stack := stack1;
      var current := stack[|stack| - 1];
      stack := stack[..|stack| - 1];
      var unseen := Succ(reverse, current) - seen1;
      if unseen != {} {
        NonEmpty(unseen);
        var neighbour :| neighbour in unseen;
        TransposedKeys(nodes, forward, reverse, current, neighbour);
        SearchDiscover(reverse, forward.Keys, seen1, stack1, order1, disc1, fin1, clock1, neighbour);
        seen := seen1 + {neighbour};
        stack := stack + [current, neighbour];
        assert stack == stack1 + [neighbour];
        order := order1;
        disc, fin, clock := disc1[neighbour := clock1], fin1, clock1 + 1;
      } else {
        SearchFinish(reverse, forward.Keys, seen1, stack1, order1, disc1, fin1, clock1);
        seen := seen1;
        order := order1 + [current];
        disc, fin, clock := disc1, fin1[current := clock1], clock1 + 1;
      }
    }

    /** loop2: take the nodes of the order from the last one back; every node that no
        earlier leader reached becomes a leader and is counted with the nodes it reaches
        that no earlier leader did. Between them the leaders reach every node of the
        order, and the counts add up to the number of nodes reached. */
    method Loop2(order: seq<int>) returns (sccs: map<int, int>, ghost leaders: seq<int>)
      requires Valid() && forall x :: x in order ==> x in forward
      ensures CountsClaims(forward, forward.Keys, sccs, leaders)
      ensures ChosenFromBack(forward, forward.Keys, order, leaders)
      ensures forall j :: 0 <= j < |order| ==> order[j] in ReachUnion(forward, forward.Keys, leaders)
      ensures Total(sccs, leaders) == |ReachUnion(forward, forward.Keys, leaders)|
      ensures (forall x :: x in nodes ==> x in order) ==> Total(sccs, leaders) == |nodes|
      ensures (forall x :: x in nodes ==> x in order) && FinishOrdered(reverse, order) ==>
                ComponentCounts(forward, forward.Keys, sccs, leaders)
    {
      var seen: set<int> := {};
      sccs := map[];
      leaders := [];
      LedStart(forward, forward.Keys, order);
      for k := |order| downto 0
        invariant Led(forward, forward.Keys, order, k, seen, sccs, leaders)
      {
        var node := order[k];
        if node !in seen {
          var claimed, count := Claim(node, seen);
          LedClaim(forward, forward.Keys, order, k, seen, sccs, leaders, claimed, count);
          sccs := sccs[node := count];
          leaders := leaders + [node];
          seen := claimed;
        } else {
          LedSkip(forward, forward.Keys, order, k, seen, sccs, leaders);
        }
      }
      if forall x :: x in nodes ==> x in order {
        LedDone(forward, nodes, forward.Keys, order, seen, sccs, leaders);
        if FinishOrdered(reverse, order) {
          CountsAreComponents(forward, reverse, forward.Keys, order, sccs, leaders);
        }
      }
    }

    /** One search of loop2 from a new leader: pop a node, and push every successor not
        seen yet, counting it. Starting from a set of seen nodes that no edge leaves, it
        claims exactly the nodes that root reaches outside that set. */
    method Claim(root: int, seen0: set<int>) returns (seen: set<int>, count: int)
      requires Valid() && root in forward && root !in seen0
      requires seen0 <= forward.Keys && Closed(forward, seen0)
      ensures seen0 <= seen <= forward.Keys && root in seen && Closed(forward, seen)
      ensures seen - seen0 == ReachSet(forward, forward.Keys, root) - seen0
      ensures count == |seen - seen0|
    {
      count := 1;
      seen := seen0 + {root};
      assert seen - seen0 == {root};
      ReachesSelf(forward, root);
      var stack := [root];
      while stack != []
        invariant seen0 <= seen <= forward.Keys && root in seen
        invariant forall i :: 0 <= i < |stack| ==> stack[i] in seen - seen0
        invariant forall v :: v in seen - seen0 ==> Reaches(forward, root, v)
        invariant forall x :: x in seen - seen0 && x !in stack ==> Succ(forward, x) <= seen
        invariant count == |seen - seen0|
        decreases forward.Keys - seen, |stack|
      {
        ghost var before := stack;
        var current := stack[|stack| - 1];
        stack := stack[..|stack| - 1];
        assert before == stack + [current];
        var pushed;
        seen, pushed, count := PushUnseen(root, seen0, current, seen, count);
        stack := stack + pushed;
      }
      SearchClaims(forward, forward.Keys, seen0, seen, root);
    }

    /** The inner loop of a loop2 search: every successor of current not seen yet is
        marked seen, counted, and pushed; pushed lists them in the order they go on the
        stack. */
    method PushUnseen(root: int, seen0: set<int>, current: int, seen1: set<int>, count1: int)
      returns (seen: set<int>, pushed: seq<int>, count: int)
      requires Valid() && seen0 <= seen1 <= forward.Keys && current in seen1 - seen0
      requires forall v :: v in seen1 - seen0 ==> Reaches(forward, root, v)
      requires count1 == |seen1 - seen0|
      ensures seen1 <= seen <= forward.Keys && Succ(forward, current) <= seen
      ensures forall i :: 0 <= i < |pushed| ==> pushed[i] in seen - seen1
      ensures forall x :: x in seen - seen1 ==> x in pushed
      ensures seen == seen1 ==> pushed == []
      ensures forall v :: v in seen - seen0 ==> Reaches(forward, root, v)
      ensures count == |seen - seen0|
    {
      seen, pushed, count := seen1, [], count1;
      var todo := Succ(forward, current);
      while todo != {}
        invariant seen1 <= seen <= forward.Keys
        invariant Succ(forward, current) - todo <= seen
        invariant forall i :: 0 <= i < |pushed| ==> pushed[i] in seen - seen1
        invariant forall x :: x in seen - seen1 ==> x in pushed
        invariant seen == seen1 ==> pushed == []
        invariant forall v :: v in seen - seen0 ==> Reaches(forward, root, v)
        invariant count == |seen - seen0|
        decreases todo
      {
        NonEmpty(todo);
        var neighbour :| neighbour in todo;
        todo := todo - {neighbour};
        if neighbour !in seen {
          ReachesNext(forward, root, current, neighbour);
          MarkSeen(seen0, seen, neighbour);
          assert (pushed + [neighbour])[|pushed|] == neighbour;
          seen := seen + {neighbour};
          pushed := pushed + [neighbour];
          count := count + 1;
        }
      }
    }
  }
}
