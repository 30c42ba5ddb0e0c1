/** The classes that a run of unions over a list of node pairs leaves: two nodes end in
    one class exactly when a chain of pairs, through the classes there were before,
    joins them. This is what the union loop of kClustersHammingDistance.py computes,
    whatever the order of the pairs. */
module Components {
  import opened Classes

  datatype Pair = Pair(a: nat, b: nat)

  ghost predicate Within(pairs: seq<Pair>, n: nat)
  {
    forall p :: p in pairs ==> p.a < n && p.b < n
  }

  lemma WithinTail(pairs: seq<Pair>, n: nat)
    requires pairs != [] && Within(pairs, n)
    ensures Within(pairs[1..], n)
  {
    forall p | p in pairs[1..] ensures p in pairs { }
  }

  ghost function PairSet(pairs: seq<Pair>): set<Pair>
  {
    set p | p in pairs
  }

  /** The labels after the union of the ends of every pair, in order. */
  ghost function Merges(labels: seq<nat>, pairs: seq<Pair>): (r: seq<nat>)
    requires Within(pairs, |labels|)
    ensures |r| == |labels|
    decreases |pairs|
  {
    if pairs == [] then labels
    else
      var p := pairs[0];
      WithinTail(pairs, |labels|);
      Merges(Relabel(labels, labels[p.a], labels[p.b]), pairs[1..])
  }

  /** One link of a chain: two nodes that shared a class before, or the two ends of a
      pair, in either order. */
  ghost predicate Step(labels: seq<nat>, rel: set<Pair>, u: nat, v: nat)
  {
    u < |labels| && v < |labels|
    && (labels[u] == labels[v] || Pair(u, v) in rel || Pair(v, u) in rel)
  }

  ghost predicate Chain(labels: seq<nat>, rel: set<Pair>, path: seq<nat>)
  {
    |path| >= 1 && path[0] < |labels| && path[|path| - 1] < |labels|
    && forall k :: 0 <= k < |path| - 1 ==> Step(labels, rel, path[k], path[k + 1])
  }

  /** x and y are joined by a chain. */
  ghost predicate Linked(labels: seq<nat>, rel: set<Pair>, x: nat, y: nat)
  {
    exists path :: Chain(labels, rel, path) && path[0] == x && path[|path| - 1] == y
  }

  /** Nodes of one class stay in one class. */
  lemma {:induction false} KeepTogether(labels: seq<nat>, pairs: seq<Pair>, x: nat, y: nat)
    requires Within(pairs, |labels|) && x < |labels| && y < |labels| && labels[x] == labels[y]
    ensures Merges(labels, pairs)[x] == Merges(labels, pairs)[y]
    decreases |pairs|
  {
    if pairs != [] {
      var p := pairs[0];
      WithinTail(pairs, |labels|);
      KeepTogether(Relabel(labels, labels[p.a], labels[p.b]), pairs[1..], x, y);
    }
  }

  /** The two ends of every pair end in one class. */
  lemma {:induction false} PairInside(labels: seq<nat>, pairs: seq<Pair>, k: nat)
    requires Within(pairs, |labels|) && k < |pairs|
    ensures Merges(labels, pairs)[pairs[k].a] == Merges(labels, pairs)[pairs[k].b]
    decreases |pairs|
  {
    var p := pairs[0];
    var l := Relabel(labels, labels[p.a], labels[p.b]);
    WithinTail(pairs, |labels|);
    if k == 0 {
      KeepTogether(l, pairs[1..], p.a, p.b);
    } else {
      PairInside(l, pairs[1..], k - 1);
    }
  }

  /** The ends of a chain end in one class. */
  lemma {:induction false} ChainInside(labels: seq<nat>, pairs: seq<Pair>, path: seq<nat>)
    requires Within(pairs, |labels|) && Chain(labels, PairSet(pairs), path)
    ensures Merges(labels, pairs)[path[0]] == Merges(labels, pairs)[path[|path| - 1]]
    decreases |path|
  {
    if |path| > 1 {
      var u, v := path[0], path[1];
      assert Step(labels, PairSet(pairs), u, v);
      var m := Merges(labels, pairs);
      if labels[u] == labels[v] {
        KeepTogether(labels, pairs, u, v);
      } else if Pair(u, v) in pairs {
        var k :| 0 <= k < |pairs| && pairs[k] == Pair(u, v);
        PairInside(labels, pairs, k);
      } else {
        assert Pair(v, u) in pairs;
        var k :| 0 <= k < |pairs| && pairs[k] == Pair(v, u);
        PairInside(labels, pairs, k);
      }
      assert Chain(labels, PairSet(pairs), path[1..]) by {
        forall k | 0 <= k < |path[1..]| - 1
          ensures Step(labels, PairSet(pairs), path[1..][k], path[1..][k + 1])
        {
          assert path[1..][k] == path[k + 1] && path[1..][k + 1] == path[k + 2];
        }
      }
      ChainInside(labels, pairs, path[1..]);
    }
  }

  /** Two chains that meet make one. */
  lemma Concat(labels: seq<nat>, rel: set<Pair>, p1: seq<nat>, p2: seq<nat>)
    requires Chain(labels, rel, p1) && Chain(labels, rel, p2) && p1[|p1| - 1] == p2[0]
    ensures Chain(labels, rel, p1 + p2[1..])
    ensures (p1 + p2[1..])[0] == p1[0]
    ensures (p1 + p2[1..])[|p1 + p2[1..]| - 1] == p2[|p2| - 1]
  {
    var p := p1 + p2[1..];
    forall k | 0 <= k < |p| - 1 ensures Step(labels, rel, p[k], p[k + 1]) {
      if k < |p1| - 1 {
        assert p[k] == p1[k] && p[k + 1] == p1[k + 1];
      } else {
        var k2 := k - |p1| + 1;
        assert p[k] == p2[k2] && p[k + 1] == p2[k2 + 1];
      }
    }
  }

  /** A link after the first union is a chain before it. */
  lemma LiftStep(labels: seq<nat>, pairs: seq<Pair>, u: nat, v: nat) returns (path: seq<nat>)
    requires pairs != [] && Within(pairs, |labels|)
    requires Step(Relabel(labels, labels[pairs[0].a], labels[pairs[0].b]), PairSet(pairs[1..]), u, v)
    ensures Chain(labels, PairSet(pairs), path) && path[0] == u && path[|path| - 1] == v
  {
    var a, b := pairs[0].a, pairs[0].b;
    var rel := PairSet(pairs);
    assert Pair(a, b) in rel;
    if labels[u] == labels[v] || Pair(u, v) in pairs[1..] || Pair(v, u) in pairs[1..] {
      path := [u, v];
    } else if labels[u] == labels[a] {
      path := [u, a, b, v];
    } else {
      path := [u, b, a, v];
    }
  }

  /** A chain after the first union is a chain before it. */
  lemma {:induction false} LiftChain(labels: seq<nat>, pairs: seq<Pair>, path: seq<nat>)
    returns (path0: seq<nat>)
    requires pairs != [] && Within(pairs, |labels|)
    requires Chain(Relabel(labels, labels[pairs[0].a], labels[pairs[0].b]), PairSet(pairs[1..]), path)
    ensures Chain(labels, PairSet(pairs), path0)
    ensures path0[0] == path[0] && path0[|path0| - 1] == path[|path| - 1]
    decreases |path|
  {
    var l1 := Relabel(labels, labels[pairs[0].a], labels[pairs[0].b]);
    if |path| == 1 {
      path0 := path;
    } else {
      var first := LiftStep(labels, pairs, path[0], path[1]);
      assert Chain(l1, PairSet(pairs[1..]), path[1..]) by {
        forall k | 0 <= k < |path[1..]| - 1
          ensures Step(l1, PairSet(pairs[1..]), path[1..][k], path[1..][k + 1])
        {
          assert path[1..][k] == path[k + 1] && path[1..][k + 1] == path[k + 2];
        }
      }
      var rest := LiftChain(labels, pairs, path[1..]);
      Concat(labels, PairSet(pairs), first, rest);
      path0 := first + rest[1..];
    }
  }

  /** Nodes that end in one class are joined by a chain. */
  lemma {:induction false} InsideChain(labels: seq<nat>, pairs: seq<Pair>, x: nat, y: nat)
    returns (path: seq<nat>)
    requires Within(pairs, |labels|) && x < |labels| && y < |labels|
    requires Merges(labels, pairs)[x] == Merges(labels, pairs)[y]
    ensures Chain(labels, PairSet(pairs), path) && path[0] == x && path[|path| - 1] == y
    decreases |pairs|
  {
    if pairs == [] {
      path := [x, y];
    } else {
      var p := pairs[0];
      WithinTail(pairs, |labels|);
      var l1 := Relabel(labels, labels[p.a], labels[p.b]);
      var path1 := InsideChain(l1, pairs[1..], x, y);
      path := LiftChain(labels, pairs, path1);
    }
  }

  /** The classes after the unions are exactly the classes of the chains. */
  lemma MergesAreLinks(labels: seq<nat>, pairs: seq<Pair>, x: nat, y: nat)
    requires Within(pairs, |labels|) && x < |labels| && y < |labels|
    ensures Merges(labels, pairs)[x] == Merges(labels, pairs)[y] <==> Linked(labels, PairSet(pairs), x, y)
  {
    if Merges(labels, pairs)[x] == Merges(labels, pairs)[y] {
      var path := InsideChain(labels, pairs, x, y);
    }
    if Linked(labels, PairSet(pairs), x, y) {
      var path :| Chain(labels, PairSet(pairs), path) && path[0] == x && path[|path| - 1] == y;
      ChainInside(labels, pairs, path);
    }
  }

  /** Chains depend on the links only, not on their direction: two sets of pairs with
      the same links between different nodes join the same nodes. */
  lemma SameLinks(labels: seq<nat>, rel1: set<Pair>, rel2: set<Pair>, x: nat, y: nat)
    requires forall u, v :: Pair(u, v) in rel1 ==> u == v || Pair(u, v) in rel2 || Pair(v, u) in rel2
    requires forall u, v :: Pair(u, v) in rel2 ==> u == v || Pair(u, v) in rel1 || Pair(v, u) in rel1
    ensures Linked(labels, rel1, x, y) <==> Linked(labels, rel2, x, y)
  {
    forall path | Chain(labels, rel1, path) ensures Chain(labels, rel2, path) {
      forall k | 0 <= k < |path| - 1 ensures Step(labels, rel2, path[k], path[k + 1]) {
        assert Step(labels, rel1, path[k], path[k + 1]);
      }
    }
    forall path | Chain(labels, rel2, path) ensures Chain(labels, rel1, path) {
      forall k | 0 <= k < |path| - 1 ensures Step(labels, rel1, path[k], path[k + 1]) {
        assert Step(labels, rel2, path[k], path[k + 1]);
      }
    }
  }
}
