/** Directed graphs given by successor sets, paths, reachability, and the facts that
    the depth-first searches of scc.py and 2SAT.py need: a set of nodes that no edge
    leaves holds everything its members reach, and the nodes that a run of searches
    from given leaders claims, leader by leader. */
module Reachability {

  /** The successors of u; a node without an entry has none. */
  function Succ(g: map<int, set<int>>, u: int): set<int>
  {
    if u in g then g[u] else {}
  }

  /** A set that is not empty has a member, which a search may pick. */
  lemma AllIn(s: set<int>, t: set<int>)
    requires s - t == {}
    ensures forall x :: x in s ==> x in t
  {
    forall x | x in s ensures x in t {
      assert x !in s - t;
    }
  }

  /** Marking n seen leaves one node fewer to visit. */
  lemma Unvisited(keys: set<int>, seen: set<int>, n: int)
    requires n in keys && n !in seen
    ensures |keys - (seen + {n})| == |keys - seen| - 1
  {
    assert keys - (seen + {n}) == (keys - seen) - {n};
  }

  /** Marking a node that was not seen, and maybe more, leaves fewer nodes to visit. */
  lemma Fewer(keys: set<int>, seen0: set<int>, seen: set<int>, n: int)
    requires n in keys && n !in seen0 && seen0 + {n} <= seen
    ensures |keys - seen| < |keys - seen0|
  {
    Unvisited(keys, seen0, n);
    SubsetCard(keys - seen, keys - (seen0 + {n}));
  }

  lemma {:induction false} SubsetCard(a: set<int>, b: set<int>)
    requires a <= b
    ensures |a| <= |b|
    decreases |a|
  {
    if a != {} {
      NonEmpty(a);
      var x :| x in a;
      SubsetCard(a - {x}, b - {x});
    }
  }

  /** Set difference from membership. */
  lemma NoneLeft(s: set<int>, t: set<int>)
    requires forall x :: x in s ==> x in t
    ensures s - t == {}
  {
    if s - t != {} {
      NonEmpty(s - t);
      assert false;
    }
  }

  /** Entries 0 to j of a list lie in s2 once entries 0 to j - 1 lie in s1, which s2
      contains, and entry j lies in s2. */
  lemma SeenUpTo(next: seq<int>, j: int, s1: set<int>, s2: set<int>)
    requires 0 <= j < |next| && s1 <= s2 && next[j] in s2
    requires forall t :: 0 <= t < j ==> next[t] in s1
    ensures forall t :: 0 <= t < j + 1 ==> next[t] in s2
  {
  }

  lemma NonEmpty(s: set<int>)
    requires s != {}
    ensures exists y :: y in s
  {
    assert (forall y :: y !in s) ==> s == {};
  }

  predicate Distinct(s: seq<int>)
  {
    forall i, j :: 0 <= i < j < |s| ==> s[i] != s[j]
  }

  /** Every edge of g leads to a node of g. */
  ghost predicate Closed(g: map<int, set<int>>, s: set<int>)
  {
    forall x, y :: x in s && y in Succ(g, x) ==> y in s
  }

  ghost predicate IsPath(g: map<int, set<int>>, p: seq<int>)
  {
    |p| >= 1 && forall k :: 0 <= k < |p| - 1 ==> p[k + 1] in Succ(g, p[k])
  }

  /** There is a path from u to v. */
  ghost predicate Reaches(g: map<int, set<int>>, u: int, v: int)
  {
    exists p :: IsPath(g, p) && p[0] == u && p[|p| - 1] == v
  }

  lemma ReachesSelf(g: map<int, set<int>>, u: int)
    ensures Reaches(g, u, u)
  {
    assert IsPath(g, [u]);
  }

  lemma PathSnoc(g: map<int, set<int>>, p: seq<int>, w: int)
    requires IsPath(g, p) && w in Succ(g, p[|p| - 1])
    ensures IsPath(g, p + [w])
  {
    var q := p + [w];
    forall k | 0 <= k < |q| - 1 ensures q[k + 1] in Succ(g, q[k]) {
      if k < |p| - 1 {
        assert q[k] == p[k] && q[k + 1] == p[k + 1];
      }
    }
  }

  /** A path continued by one edge. */
  lemma ReachesNext(g: map<int, set<int>>, u: int, v: int, w: int)
    requires Reaches(g, u, v) && w in Succ(g, v)
    ensures Reaches(g, u, w)
  {
    var p :| IsPath(g, p) && p[0] == u && p[|p| - 1] == v;
    PathSnoc(g, p, w);
    assert (p + [w])[0] == u;
  }

  /** Every node of a path reaches every later node of it. */
  lemma PathReaches(g: map<int, set<int>>, p: seq<int>, i: int, j: int)
    requires IsPath(g, p) && 0 <= i <= j < |p|
    ensures Reaches(g, p[i], p[j])
  {
    var q := p[i..j + 1];
    forall k | 0 <= k < |q| - 1 ensures q[k + 1] in Succ(g, q[k]) {
      assert q[k] == p[i + k] && q[k + 1] == p[i + k + 1];
    }
    assert q[0] == p[i] && q[|q| - 1] == p[j];
  }

  lemma ClosedStep(g: map<int, set<int>>, s: set<int>, x: int, y: int)
    requires Closed(g, s) && x in s && y in Succ(g, x)
    ensures y in s
  {
  }

  /** A path that starts in a set no edge leaves stays in it. */
  lemma {:induction false} ClosedPath(g: map<int, set<int>>, s: set<int>, p: seq<int>, k: int)
    requires Closed(g, s) && IsPath(g, p) && p[0] in s && 0 <= k < |p|
    ensures p[k] in s
  {
    if k > 0 {
      ClosedPath(g, s, p, k - 1);
      ClosedStep(g, s, p[k - 1], p[k]);
    }
  }

  lemma ClosedReaches(g: map<int, set<int>>, s: set<int>, u: int, v: int)
    requires Closed(g, s) && u in s && Reaches(g, u, v)
    ensures v in s
  {
    var p :| IsPath(g, p) && p[0] == u && p[|p| - 1] == v;
    ClosedPath(g, s, p, |p| - 1);
  }

  /** The nodes among nodes that u reaches. */
  ghost function ReachSet(g: map<int, set<int>>, nodes: set<int>, u: int): set<int>
  {
    set v | v in nodes && Reaches(g, u, v)
  }

  /** The nodes that some leader of the list reaches. */
  ghost function ReachUnion(g: map<int, set<int>>, nodes: set<int>, leaders: seq<int>): set<int>
  {
    if leaders == [] then {}
    else ReachUnion(g, nodes, leaders[..|leaders| - 1]) + ReachSet(g, nodes, leaders[|leaders| - 1])
  }

  lemma ReachUnionSnoc(g: map<int, set<int>>, nodes: set<int>, leaders: seq<int>, u: int)
    ensures ReachUnion(g, nodes, leaders + [u]) == ReachUnion(g, nodes, leaders) + ReachSet(g, nodes, u)
  {
    assert (leaders + [u])[..|leaders|] == leaders;
  }

  /** What a search from root that found the nodes of seen0 already explored leaves behind:
      every new node is reached from root, and every edge out of a new node ends at a node
      seen. If no edge left seen0, none leaves the new set, and the new nodes are exactly
      those that root reaches outside seen0. */
  lemma SearchClaims(g: map<int, set<int>>, nodes: set<int>, seen0: set<int>, seen: set<int>, root: int)
    requires Closed(g, seen0) && seen0 <= seen <= nodes && root in seen
    requires forall v :: v in seen - seen0 ==> Reaches(g, root, v)
    requires forall x :: x in seen - seen0 ==> Succ(g, x) <= seen
    ensures Closed(g, seen)
    ensures seen - seen0 == ReachSet(g, nodes, root) - seen0
  {
    forall v | v in ReachSet(g, nodes, root) - seen0 ensures v in seen {
      ClosedReaches(g, seen, root, v);
    }
  }

  /** A list without repetitions has as many entries as elements. */
  lemma {:induction false} DistinctCard(s: seq<int>, elems: set<int>)
    requires Distinct(s) && forall x :: x in elems <==> x in s
    ensures |elems| == |s|
  {
    if s != [] {
      var t, last := s[..|s| - 1], s[|s| - 1];
      assert s == t + [last];
      assert Distinct(t);
      forall x ensures x in elems - {last} <==> x in t {
        if x in t {
          var j :| 0 <= j < |t| && t[j] == x;
          assert s[j] == x && j < |s| - 1;
        }
      }
      DistinctCard(t, elems - {last});
      assert last in elems && last !in t;
      assert |elems| == |elems - {last}| + 1;
    } else if elems != {} {
      NonEmpty(elems);
      assert false;
    }
  }

  lemma DistinctSnoc(s: seq<int>, x: int)
    requires Distinct(s) && x !in s
    ensures Distinct(s + [x])
  {
    var t := s + [x];
    forall i, j | 0 <= i < j < |t| ensures t[i] != t[j] {
      if j < |s| {
        assert t[i] == s[i] && t[j] == s[j];
      } else {
        assert t[i] == s[i] && t[i] in s;
      }
    }
  }

  /** A graph stored twice, as a list of its nodes without repetitions and as forward
      and reverse successor maps with an entry for every node: edges join nodes, and the
      reverse map holds the forward edges turned round. */
  ghost predicate Transposed(nodes: seq<int>, fwd: map<int, set<int>>, rev: map<int, set<int>>)
  {
    Distinct(nodes) && (forall x :: x in fwd <==> x in nodes) && rev.Keys == fwd.Keys
    && Closed(fwd, fwd.Keys) && Closed(rev, rev.Keys) && Reversed(fwd, rev)
  }

  /** rev holds the edges of fwd turned round. */
  ghost predicate Reversed(fwd: map<int, set<int>>, rev: map<int, set<int>>)
  {
    forall u, v :: v in Succ(fwd, u) <==> u in Succ(rev, v)
  }

  lemma AddNodes(nodes: seq<int>, keys: set<int>, u: int, v: int, nodes': seq<int>)
    requires Distinct(nodes) && (forall x :: x in keys <==> x in nodes)
    requires nodes' == nodes + (if u in keys then [] else [u]) + (if v in keys || v == u then [] else [v])
    ensures Distinct(nodes') && forall x :: x in nodes' <==> x in nodes || x == u || x == v
  {
    var n1 := nodes + (if u in keys then [] else [u]);
    if u !in keys {
      DistinctSnoc(nodes, u);
    }
    if v !in keys && v != u {
      DistinctSnoc(n1, v);
    }
  }

  /** A new node without edges, listed last. */
  lemma AddNodeTransposed(nodes: seq<int>, fwd: map<int, set<int>>, rev: map<int, set<int>>, x: int)
    requires Transposed(nodes, fwd, rev) && x !in fwd
    ensures Transposed(nodes + [x], fwd[x := {}], rev[x := {}])
  {
    DistinctSnoc(nodes, x);
    var f, r := fwd[x := {}], rev[x := {}];
    forall u, v ensures v in Succ(f, u) <==> u in Succ(r, v) {
      if v in Succ(f, u) {
        assert u != x && v in Succ(fwd, u);
        ClosedStep(fwd, fwd.Keys, u, v);
      }
      if u in Succ(r, v) {
        assert v != x && u in Succ(rev, v);
        ClosedStep(rev, rev.Keys, v, u);
      }
    }
    forall u, v | u in f.Keys && v in Succ(f, u) ensures v in f.Keys {
      if u != x {
        ClosedStep(fwd, fwd.Keys, u, v);
      }
    }
    forall u, v | u in r.Keys && v in Succ(r, u) ensures v in r.Keys {
      if u != x {
        ClosedStep(rev, rev.Keys, u, v);
      }
    }
  }

  /** g with u and v as nodes, when they were not, and the edge u -> v added. */
  function AddArc(g: map<int, set<int>>, u: int, v: int): (r: map<int, set<int>>)
    ensures r.Keys == g.Keys + {u, v}
  {
    var g1 := if u in g then g else g[u := {}];
    var g2 := if v in g1 then g1 else g1[v := {}];
    g2[u := g2[u] + {v}]
  }

  lemma AddArcSucc(g: map<int, set<int>>, u: int, v: int, x: int)
    ensures Succ(AddArc(g, u, v), x) == Succ(g, x) + (if x == u then {v} else {})
  {
  }

  lemma AddArcClosed(g: map<int, set<int>>, u: int, v: int)
    requires Closed(g, g.Keys)
    ensures Closed(AddArc(g, u, v), AddArc(g, u, v).Keys)
  {
    var r := AddArc(g, u, v);
    forall x, y | x in r.Keys && y in Succ(r, x) ensures y in r.Keys {
      AddArcSucc(g, u, v, x);
      if y != v {
        ClosedStep(g, g.Keys, x, y);
      }
    }
  }

  lemma AddArcReversed(fwd: map<int, set<int>>, rev: map<int, set<int>>, u: int, v: int)
    requires Reversed(fwd, rev)
    ensures Reversed(AddArc(fwd, u, v), AddArc(rev, v, u))
  {
    forall x, y ensures y in Succ(AddArc(fwd, u, v), x) <==> x in Succ(AddArc(rev, v, u), y) {
      AddArcSucc(fwd, u, v, x);
      AddArcSucc(rev, v, u, y);
    }
  }

  /** A reversed edge joins two nodes of the graph. */
  lemma TransposedKeys(nodes: seq<int>, fwd: map<int, set<int>>, rev: map<int, set<int>>, u: int, v: int)
    requires Transposed(nodes, fwd, rev) && v in Succ(rev, u)
    ensures v in fwd.Keys
  {
    ClosedStep(rev, rev.Keys, u, v);
  }

  /** Adding the edge u -> v, with its ends as nodes when they are new. */
  lemma AddEdgeTransposed(nodes: seq<int>, fwd: map<int, set<int>>, rev: map<int, set<int>>, u: int, v: int,
                          nodes': seq<int>)
    requires Transposed(nodes, fwd, rev)
    requires nodes' == nodes + (if u in fwd then [] else [u]) + (if v in fwd || v == u then [] else [v])
    ensures Transposed(nodes', AddArc(fwd, u, v), AddArc(rev, v, u))
  {
    AddNodes(nodes, fwd.Keys, u, v, nodes');
    AddArcClosed(fwd, u, v);
    AddArcClosed(rev, v, u);
    AddArcReversed(fwd, rev, u, v);
  }

  /** The sum of the counts of the leaders. */
  ghost function Total(counts: map<int, int>, leaders: seq<int>): int
    requires forall i :: 0 <= i < |leaders| ==> leaders[i] in counts
  {
    if leaders == [] then 0
    else
      Total(counts, leaders[..|leaders| - 1]) + counts[leaders[|leaders| - 1]]
  }

  lemma {:induction false} TotalFrame(c1: map<int, int>, c2: map<int, int>, leaders: seq<int>)
    requires forall i :: 0 <= i < |leaders| ==> leaders[i] in c1 && leaders[i] in c2 && c1[leaders[i]] == c2[leaders[i]]
    ensures Total(c1, leaders) == Total(c2, leaders)
  {
    if leaders != [] {
      var t, last := leaders[..|leaders| - 1], leaders[|leaders| - 1];
      assert leaders == t + [last];
      TotalFrame(c1, c2, t);
    }
  }

  /** leader is the entry of the order that comes last among those outside claimed. */
  ghost predicate LatestOutside(order: seq<int>, leader: int, claimed: set<int>)
  {
    exists p :: 0 <= p < |order| && order[p] == leader
      && forall q :: p < q < |order| ==> order[q] in claimed
  }

  /** The leaders are taken from the back of the order, each the last node that the
      leaders before it do not reach. */
  ghost predicate ChosenFromBack(g: map<int, set<int>>, nodes: set<int>, order: seq<int>, leaders: seq<int>)
  {
    forall i :: 0 <= i < |leaders| ==>
      LatestOutside(order, leaders[i], ReachUnion(g, nodes, leaders[..i]))
      && leaders[i] !in ReachUnion(g, nodes, leaders[..i])
  }

  lemma ChosenFromBackSnoc(g: map<int, set<int>>, nodes: set<int>, order: seq<int>, leaders: seq<int>, k: int)
    requires ChosenFromBack(g, nodes, order, leaders) && 0 <= k < |order|
    requires order[k] !in ReachUnion(g, nodes, leaders)
    requires forall j :: k < j < |order| ==> order[j] in ReachUnion(g, nodes, leaders)
    ensures ChosenFromBack(g, nodes, order, leaders + [order[k]])
  {
    var l := leaders + [order[k]];
    forall i | 0 <= i < |l| ensures LatestOutside(order, l[i], ReachUnion(g, nodes, l[..i]))
      && l[i] !in ReachUnion(g, nodes, l[..i])
    {
      if i < |leaders| {
        assert l[..i] == leaders[..i] && l[i] == leaders[i];
      } else {
        assert l[..i] == leaders;
        assert LatestOutside(order, order[k], ReachUnion(g, nodes, leaders));
      }
    }
  }

  /** The number of nodes that the i-th leader reaches and no earlier leader does. */
  ghost function ClaimSize(g: map<int, set<int>>, nodes: set<int>, leaders: seq<int>, i: int): int
    requires 0 <= i < |leaders|
  {
    |ReachSet(g, nodes, leaders[i]) - ReachUnion(g, nodes, leaders[..i])|
  }

  lemma ClaimSizeSnoc(g: map<int, set<int>>, nodes: set<int>, leaders: seq<int>, u: int, i: int)
    requires 0 <= i <= |leaders|
    ensures ClaimSize(g, nodes, leaders + [u], i)
      == if i < |leaders| then ClaimSize(g, nodes, leaders, i)
         else |ReachSet(g, nodes, u) - ReachUnion(g, nodes, leaders)|
  {
    var l := leaders + [u];
    if i < |leaders| {
      assert l[..i] == leaders[..i] && l[i] == leaders[i];
    } else {
      assert l[..i] == leaders;
    }
  }

  /** Every leader is counted with the nodes it reaches that no earlier leader reaches. */
  ghost predicate CountsClaims(g: map<int, set<int>>, nodes: set<int>, counts: map<int, int>, leaders: seq<int>)
  {
    Distinct(leaders) && (forall x :: x in counts <==> x in leaders)
    && forall i :: 0 <= i < |leaders| ==> counts[leaders[i]] == ClaimSize(g, nodes, leaders, i)
  }

  lemma CountsClaimsSnoc(g: map<int, set<int>>, nodes: set<int>, counts: map<int, int>, leaders: seq<int>,
                         u: int, count: int)
    requires CountsClaims(g, nodes, counts, leaders) && u !in leaders
    requires count == |ReachSet(g, nodes, u) - ReachUnion(g, nodes, leaders)|
    ensures CountsClaims(g, nodes, counts[u := count], leaders + [u])
  {
    var l, c := leaders + [u], counts[u := count];
    DistinctSnoc(leaders, u);
    forall i | 0 <= i < |l| ensures c[l[i]] == ClaimSize(g, nodes, l, i) {
      ClaimSizeSnoc(g, nodes, leaders, u, i);
      if i < |leaders| {
        assert l[i] == leaders[i] && l[i] in leaders;
      }
    }
  }

  lemma TotalSnoc(counts: map<int, int>, leaders: seq<int>, u: int, count: int)
    requires (forall i :: 0 <= i < |leaders| ==> leaders[i] in counts) && u !in leaders
    ensures Total(counts[u := count], leaders + [u]) == Total(counts, leaders) + count
  {
    assert (leaders + [u])[..|leaders|] == leaders;
    TotalFrame(counts, counts[u := count], leaders);
  }

  /** The state of the second pass once it has taken the entries of the order from k to
      the end: seen is what the leaders so far reach, no edge leaves it, it covers those
      entries, the leaders were chosen from the back, each is counted with what it claims,
      and the counts add up to the size of seen. */
  ghost predicate Led(g: map<int, set<int>>, nodes: set<int>, order: seq<int>, k: int,
                      seen: set<int>, counts: map<int, int>, leaders: seq<int>)
  {
    0 <= k <= |order|
    && seen == ReachUnion(g, nodes, leaders) && Closed(g, seen) && seen <= nodes
    && (forall i :: 0 <= i < |leaders| ==> leaders[i] in seen)
    && (forall j :: k <= j < |order| ==> order[j] in seen)
    && CountsClaims(g, nodes, counts, leaders) && ChosenFromBack(g, nodes, order, leaders)
    && Total(counts, leaders) == |seen|
  }

  lemma LedStart(g: map<int, set<int>>, nodes: set<int>, order: seq<int>)
    ensures Led(g, nodes, order, |order|, {}, map[], [])
  {
  }

  /** An entry that is already seen changes nothing. */
  lemma LedSkip(g: map<int, set<int>>, nodes: set<int>, order: seq<int>, k: int,
                seen: set<int>, counts: map<int, int>, leaders: seq<int>)
    requires 0 <= k < |order| && Led(g, nodes, order, k + 1, seen, counts, leaders)
    requires order[k] in seen
    ensures Led(g, nodes, order, k, seen, counts, leaders)
  {
  }

  /** An entry not seen yet becomes a leader, counted with the nodes it claims. */
  lemma LedClaim(g: map<int, set<int>>, nodes: set<int>, order: seq<int>, k: int,
                 seen: set<int>, counts: map<int, int>, leaders: seq<int>, claimed: set<int>, count: int)
    requires 0 <= k < |order| && Led(g, nodes, order, k + 1, seen, counts, leaders)
    requires order[k] !in seen && order[k] in claimed
    requires seen <= claimed <= nodes && Closed(g, claimed)
    requires claimed - seen == ReachSet(g, nodes, order[k]) - seen
    requires count == |claimed - seen|
    ensures Led(g, nodes, order, k, claimed, counts[order[k] := count], leaders + [order[k]])
  {
    var u := order[k];
    assert u !in leaders;
    ChosenFromBackSnoc(g, nodes, order, leaders, k);
    CountsClaimsSnoc(g, nodes, counts, leaders, u, count);
    TotalSnoc(counts, leaders, u, count);
    ReachUnionSnoc(g, nodes, leaders, u);
    GrowSeen(seen, claimed, ReachSet(g, nodes, u), count);
    CoveredSnoc(leaders, u, seen, claimed);
    CoveredFrom(order, k, seen, claimed);
  }

  /** Marking a new node seen adds it to the nodes seen since seen0. */
  lemma MarkSeen(seen0: set<int>, seen: set<int>, x: int)
    requires seen0 <= seen && x !in seen
    ensures (seen + {x}) - seen0 == (seen - seen0) + {x} && |(seen + {x}) - seen0| == |seen - seen0| + 1
  {
    assert (seen + {x}) - seen0 == (seen - seen0) + {x};
  }

  lemma GrowSeen(seen: set<int>, claimed: set<int>, reached: set<int>, count: int)
    requires seen <= claimed && claimed - seen == reached - seen && count == |claimed - seen|
    ensures claimed == seen + reached && |claimed| == |seen| + count
  {
    assert claimed == seen + (claimed - seen);
  }

  lemma CoveredSnoc(s: seq<int>, u: int, seen: set<int>, claimed: set<int>)
    requires (forall i :: 0 <= i < |s| ==> s[i] in seen) && seen <= claimed && u in claimed
    ensures forall i :: 0 <= i < |s + [u]| ==> (s + [u])[i] in claimed
  {
  }

  lemma CoveredFrom(order: seq<int>, k: int, seen: set<int>, claimed: set<int>)
    requires 0 <= k < |order| && (forall j :: k + 1 <= j < |order| ==> order[j] in seen)
    requires seen <= claimed && order[k] in claimed
    ensures forall j :: k <= j < |order| ==> order[j] in claimed
  {
  }

  /** When the order lists every node, the second pass ends having seen them all, so the
      counts add up to the number of nodes. */
  lemma LedDone(g: map<int, set<int>>, nodes: seq<int>, keys: set<int>, order: seq<int>,
                seen: set<int>, counts: map<int, int>, leaders: seq<int>)
    requires Distinct(nodes) && (forall x :: x in keys <==> x in nodes)
    requires forall x :: x in nodes ==> x in order
    requires Led(g, keys, order, 0, seen, counts, leaders)
    ensures seen == keys && Total(counts, leaders) == |nodes|
  {
    forall x | x in keys ensures x in seen {
      var j :| 0 <= j < |order| && order[j] == x;
    }
    DistinctCard(nodes, keys);
    assert seen == keys;
  }
}
