/** Component numbers as a recursive second pass of Kosaraju's algorithm hands them out:
    the i-th leader's search labels with i + 1 every node it reaches that no earlier
    leader reached. Such labels never grow along an edge, and, when the leaders come
    from the back of the finishing order of a search of the reversed graph, two nodes
    share a label exactly when each reaches the other. */
module ComponentIds {
  import opened Reachability
  import opened SearchTimes
  import opened Kosaraju

  /** Reaching is transitive. */
  lemma ReachesTrans(g: map<int, set<int>>, u: int, v: int, w: int)
    requires Reaches(g, u, v) && Reaches(g, v, w)
    ensures Reaches(g, u, w)
  {
    var p :| IsPath(g, p) && p[0] == u && p[|p| - 1] == v;
    var q :| IsPath(g, q) && q[0] == v && q[|q| - 1] == w;
    var r := p + q[1..];
    forall k | 0 <= k < |r| - 1 ensures r[k + 1] in Succ(g, r[k]) {
      if k < |p| - 1 {
        assert r[k] == p[k] && r[k + 1] == p[k + 1];
      } else {
        assert r[k] == q[k - |p| + 1] && r[k + 1] == q[k - |p| + 2];
      }
    }
    assert IsPath(g, r) && r[0] == u && r[|r| - 1] == w;
  }

  /** The nodes the i-th leader claims: those it reaches and no earlier leader does. */
  ghost function Claim(g: map<int, set<int>>, nodes: set<int>, leaders: seq<int>, i: int): set<int>
    requires 0 <= i < |leaders|
  {
    ReachSet(g, nodes, leaders[i]) - ReachUnion(g, nodes, leaders[..i])
  }

  /** The labels cover exactly what the leaders reach, and every node claimed by the
      i-th leader carries i + 1. */
  ghost predicate Labels(g: map<int, set<int>>, nodes: set<int>, ids: map<int, int>, leaders: seq<int>)
  {
    (forall x :: x in ids <==> x in ReachUnion(g, nodes, leaders)) && ClaimLabels(g, nodes, ids, leaders)
  }

  /** Every node claimed by the i-th leader carries i + 1. */
  ghost predicate ClaimLabels(g: map<int, set<int>>, nodes: set<int>, ids: map<int, int>, leaders: seq<int>)
  {
    forall i, x :: 0 <= i < |leaders| && x in Claim(g, nodes, leaders, i) ==> x in ids && ids[x] == i + 1
  }

  /** The state of the second pass once it has popped the entries of the order from k to
      the end: seen is what the leaders so far reach, no edge leaves it, it covers those
      entries and the leaders, the leaders were chosen from the back, and the labels are
      those of the claims. */
  ghost predicate Labelled(g: map<int, set<int>>, nodes: set<int>, order: seq<int>, k: int,
                           seen: set<int>, ids: map<int, int>, leaders: seq<int>)
  {
    0 <= k <= |order|
    && seen == ReachUnion(g, nodes, leaders) && Closed(g, seen) && seen <= nodes
    && (forall i :: 0 <= i < |leaders| ==> leaders[i] in seen)
    && (forall j :: k <= j < |order| ==> order[j] in seen)
    && ChosenFromBack(g, nodes, order, leaders) && Labels(g, nodes, ids, leaders)
  }

  /** What a recursive search leaves behind inside a claim: the nodes it added to seen0
      are reached from root and all their successors are seen; they, and only they, got
      the label id, and the other labels are unchanged. */
  ghost predicate Grown(g: map<int, set<int>>, nodes: set<int>, root: int, seen0: set<int>, seen: set<int>,
                        ids0: map<int, int>, ids: map<int, int>, id: int)
  {
    seen0 <= seen <= nodes
    && (forall v :: v in seen - seen0 ==> Reaches(g, root, v))
    && (forall x :: x in seen - seen0 ==> Succ(g, x) <= seen)
    && (forall x :: x in ids <==> x in ids0 || x in seen - seen0)
    && (forall x :: x in seen - seen0 ==> x in ids && ids[x] == id)
    && (forall x :: x in ids0 && x !in seen - seen0 ==> x in ids && ids[x] == ids0[x])
  }

  lemma GrownNone(g: map<int, set<int>>, nodes: set<int>, root: int, seen: set<int>, ids: map<int, int>, id: int)
    requires seen <= nodes
    ensures Grown(g, nodes, root, seen, seen, ids, ids, id)
  {
  }

  /** Two searches one after the other. */
  lemma GrownTrans(g: map<int, set<int>>, nodes: set<int>, root: int, s0: set<int>, s1: set<int>, s2: set<int>,
                   i0: map<int, int>, i1: map<int, int>, i2: map<int, int>, id: int)
    requires Grown(g, nodes, root, s0, s1, i0, i1, id) && Grown(g, nodes, root, s1, s2, i1, i2, id)
    ensures Grown(g, nodes, root, s0, s2, i0, i2, id)
  {
    forall x | x in s2 - s0 ensures Succ(g, x) <= s2 {
      if x in s1 {
        assert Succ(g, x) <= s1;
      }
    }
    forall x | x in s2 - s0 ensures x in i2 && i2[x] == id {
      if x in s1 {
        assert x in i1 && i1[x] == id;
      }
    }
    forall x | x in i0 && x !in s2 - s0 ensures x in i2 && i2[x] == i0[x] {
      assert x !in s1 - s0;
    }
  }

  /** A node whose successors are all seen once its own searches are done gets its label. */
  lemma GrownFinish(g: map<int, set<int>>, nodes: set<int>, root: int, seen0: set<int>, node: int, seen: set<int>,
                    ids0: map<int, int>, ids: map<int, int>, id: int)
    requires Grown(g, nodes, root, seen0 + {node}, seen, ids0, ids, id)
    requires node !in seen0 && node in nodes && Reaches(g, root, node) && Succ(g, node) <= seen
    ensures Grown(g, nodes, root, seen0, seen, ids0, ids[node := id], id)
  {
    var s1 := seen0 + {node};
    forall x | x in seen - seen0 ensures Succ(g, x) <= seen {
      if x != node {
        assert x in seen - s1;
      }
    }
    forall x | x in ids0 && x !in seen - seen0 ensures x in ids[node := id] && ids[node := id][x] == ids0[x] {
      assert x !in seen - s1 && x != node;
    }
  }

  lemma LabelledStart(g: map<int, set<int>>, nodes: set<int>, order: seq<int>)
    ensures Labelled(g, nodes, order, |order|, {}, map[], [])
  {
  }

  /** An entry that is already seen changes nothing. */
  lemma LabelledSkip(g: map<int, set<int>>, nodes: set<int>, order: seq<int>, k: int,
                     seen: set<int>, ids: map<int, int>, leaders: seq<int>)
    requires 0 <= k < |order| && Labelled(g, nodes, order, k + 1, seen, ids, leaders)
    requires order[k] in seen
    ensures Labelled(g, nodes, order, k, seen, ids, leaders)
  {
  }

  /** The claims of the earlier leaders stay as they were when a leader joins. */
  lemma ClaimSnoc(g: map<int, set<int>>, nodes: set<int>, leaders: seq<int>, u: int, i: int)
    requires 0 <= i <= |leaders|
    ensures Claim(g, nodes, leaders + [u], i)
            == if i < |leaders| then Claim(g, nodes, leaders, i) else ReachSet(g, nodes, u) - ReachUnion(g, nodes, leaders)
  {
    var l := leaders + [u];
    if i < |leaders| {
      assert l[..i] == leaders[..i] && l[i] == leaders[i];
    } else {
      assert l[..i] == leaders;
    }
  }

  /** A node an earlier leader claims keeps its label when a leader joins. */
  lemma LabelKept(g: map<int, set<int>>, nodes: set<int>, ids: map<int, int>, leaders: seq<int>, u: int,
                  i: int, x: int)
    requires Labels(g, nodes, ids, leaders) && 0 <= i < |leaders| && x in Claim(g, nodes, leaders + [u], i)
    ensures x in ids && ids[x] == i + 1
  {
    ClaimSnoc(g, nodes, leaders, u, i);
  }

  /** Keys of the labels, in plain set terms. */
  lemma KeysGrow(ids: map<int, int>, ids': map<int, int>, before: set<int>, reached: set<int>, added: set<int>)
    requires (forall x :: x in ids <==> x in before) && added == reached - before
    requires forall x :: x in ids' <==> x in ids || x in added
    ensures forall x :: x in ids' <==> x in before + reached
  {
  }

  /** The claim labels of the earlier leaders and that of the new one. */
  lemma ClaimLabelsSnoc(g: map<int, set<int>>, nodes: set<int>, ids: map<int, int>, leaders: seq<int>, u: int,
                        added: set<int>, ids': map<int, int>)
    requires Labels(g, nodes, ids, leaders) && added == ReachSet(g, nodes, u) - ReachUnion(g, nodes, leaders)
    requires forall x :: x in added ==> x in ids' && ids'[x] == |leaders| + 1
    requires forall x :: x in ids && x !in added ==> x in ids' && ids'[x] == ids[x]
    ensures ClaimLabels(g, nodes, ids', leaders + [u])
  {
    var l := leaders + [u];
    forall i, x | 0 <= i < |l| && x in Claim(g, nodes, l, i) ensures x in ids' && ids'[x] == i + 1 {
      if i < |leaders| {
        LabelKept(g, nodes, ids, leaders, u, i, x);
        assert x !in added;
      } else {
        ClaimSnoc(g, nodes, leaders, u, i);
      }
    }
  }

  /** The labels of the nodes a new leader claims, added to those of the earlier claims. */
  lemma LabelsSnoc(g: map<int, set<int>>, nodes: set<int>, ids: map<int, int>, leaders: seq<int>, u: int,
                   added: set<int>, ids': map<int, int>)
    requires Labels(g, nodes, ids, leaders) && added == ReachSet(g, nodes, u) - ReachUnion(g, nodes, leaders)
    requires forall x :: x in ids' <==> x in ids || x in added
    requires forall x :: x in added ==> x in ids' && ids'[x] == |leaders| + 1
    requires forall x :: x in ids && x !in added ==> x in ids' && ids'[x] == ids[x]
    ensures Labels(g, nodes, ids', leaders + [u])
  {
    ReachUnionSnoc(g, nodes, leaders, u);
    KeysGrow(ids, ids', ReachUnion(g, nodes, leaders), ReachSet(g, nodes, u), added);
    ClaimLabelsSnoc(g, nodes, ids, leaders, u, added, ids');
  }

  /** An entry not seen yet becomes the next leader; the search from it labels exactly
      the nodes it claims. */
  lemma LabelledClaim(g: map<int, set<int>>, nodes: set<int>, order: seq<int>, k: int,
                      seen: set<int>, ids: map<int, int>, leaders: seq<int>, claimed: set<int>, ids': map<int, int>)
    requires 0 <= k < |order| && Labelled(g, nodes, order, k + 1, seen, ids, leaders)
    requires order[k] !in seen && order[k] in claimed
    requires Grown(g, nodes, order[k], seen, claimed, ids, ids', |leaders| + 1)
    ensures Labelled(g, nodes, order, k, claimed, ids', leaders + [order[k]])
  {
    var u := order[k];
    SearchClaims(g, nodes, seen, claimed, u);
    ChosenFromBackSnoc(g, nodes, order, leaders, k);
    ReachUnionSnoc(g, nodes, leaders, u);
    GrowSeen(seen, claimed, ReachSet(g, nodes, u), |claimed - seen|);
    CoveredSnoc(leaders, u, seen, claimed);
    CoveredFrom(order, k, seen, claimed);
    LabelsSnoc(g, nodes, ids, leaders, u, claimed - seen, ids');
  }

  /** The labels once the order covers every node: one for every node, ranging over
      1 to the number of leaders, each leader carrying its own number. */
  ghost predicate Numbered(nodes: set<int>, ids: map<int, int>, leaders: seq<int>)
  {
    (forall x :: x in ids <==> x in nodes)
    && (forall x :: x in ids ==> 1 <= ids[x] <= |leaders|)
    && (forall i :: 0 <= i < |leaders| ==> leaders[i] in ids && ids[leaders[i]] == i + 1)
  }

  /** Labels never grow along an edge. */
  ghost predicate Descending(g: map<int, set<int>>, ids: map<int, int>)
  {
    forall x, y :: x in ids && y in Succ(g, x) ==> y in ids && ids[y] <= ids[x]
  }

  /** Two nodes share a label exactly when each reaches the other. */
  ghost predicate SameLabelSameComponent(g: map<int, set<int>>, ids: map<int, int>)
  {
    forall x, y :: x in ids && y in ids ==> (ids[x] == ids[y] <==> Reaches(g, x, y) && Reaches(g, y, x))
  }

  /** Every labelled node lies in some claim. */
  lemma LabelledClaimOf(g: map<int, set<int>>, nodes: set<int>, ids: map<int, int>, leaders: seq<int>, x: int)
    requires Labels(g, nodes, ids, leaders) && x in ids
    ensures exists i :: 0 <= i < |leaders| && x in Claim(g, nodes, leaders, i) && ids[x] == i + 1
  {
    ReachUnionFirst(g, nodes, leaders, x);
    var i :| 0 <= i < |leaders| && x in ReachSet(g, nodes, leaders[i]) - ReachUnion(g, nodes, leaders[..i]);
    assert x in Claim(g, nodes, leaders, i);
  }

  /** At the end of the second pass every node is labelled, by a number of a leader. */
  lemma LabelledDone(g: map<int, set<int>>, nodes: set<int>, order: seq<int>,
                     seen: set<int>, ids: map<int, int>, leaders: seq<int>)
    requires Labelled(g, nodes, order, 0, seen, ids, leaders)
    requires forall x :: x in nodes ==> x in order
    ensures seen == nodes && Numbered(nodes, ids, leaders)
  {
    forall x | x in nodes ensures x in seen {
      var j :| 0 <= j < |order| && order[j] == x;
    }
    forall x | x in ids ensures 1 <= ids[x] <= |leaders| {
      LabelledClaimOf(g, nodes, ids, leaders, x);
    }
    forall i | 0 <= i < |leaders| ensures leaders[i] in ids && ids[leaders[i]] == i + 1 {
      assert leaders[i] !in ReachUnion(g, nodes, leaders[..i]);
      ReachesSelf(g, leaders[i]);
      assert leaders[i] in Claim(g, nodes, leaders, i);
    }
  }

  /** What the leaders up to and including the i-th reach lies in their claims. */
  lemma ClaimUpTo(g: map<int, set<int>>, nodes: set<int>, ids: map<int, int>, leaders: seq<int>, i: int, y: int)
    requires Labels(g, nodes, ids, leaders) && 0 <= i < |leaders| && y in ReachSet(g, nodes, leaders[i])
    ensures y in ids && ids[y] <= i + 1
  {
    var l := leaders[..i + 1];
    assert l[|l| - 1] == leaders[i] && l[..|l| - 1] == leaders[..i];
    ReachUnionFirst(g, nodes, l, y);
    var j :| 0 <= j < |l| && y in ReachSet(g, nodes, l[j]) - ReachUnion(g, nodes, l[..j]);
    assert l[j] == leaders[j] && l[..j] == leaders[..j];
    assert y in Claim(g, nodes, leaders, j);
  }

  /** A search from a leader reaches the successors of what it claims, so the labels of
      the claims never grow along an edge. */
  lemma LabelsDescend(g: map<int, set<int>>, nodes: set<int>, ids: map<int, int>, leaders: seq<int>)
    requires Labels(g, nodes, ids, leaders) && Closed(g, nodes)
    ensures Descending(g, ids)
  {
    forall x, y | x in ids && y in Succ(g, x) ensures y in ids && ids[y] <= ids[x] {
      LabelledClaimOf(g, nodes, ids, leaders, x);
      var i :| 0 <= i < |leaders| && x in Claim(g, nodes, leaders, i) && ids[x] == i + 1;
      ReachesNext(g, leaders[i], x, y);
      ClosedStep(g, nodes, x, y);
      ClaimUpTo(g, nodes, ids, leaders, i, y);
    }
  }

  /** Kosaraju's theorem for the labels: with leaders chosen from the back of the
      finishing order of the reversed graph, every claim is a component, so the labels
      tell the components apart. */
  lemma LabelsAreComponents(fwd: map<int, set<int>>, rev: map<int, set<int>>, nodes: set<int>, order: seq<int>,
                            ids: map<int, int>, leaders: seq<int>)
    requires Reversed(fwd, rev) && Closed(fwd, nodes) && FinishOrdered(rev, order)
    requires ChosenFromBack(fwd, nodes, order, leaders) && Labels(fwd, nodes, ids, leaders)
    ensures SameLabelSameComponent(fwd, ids)
  {
    forall x, y | x in ids && y in ids
      ensures ids[x] == ids[y] <==> Reaches(fwd, x, y) && Reaches(fwd, y, x)
    {
      LabelledClaimOf(fwd, nodes, ids, leaders, x);
      var i :| 0 <= i < |leaders| && x in Claim(fwd, nodes, leaders, i) && ids[x] == i + 1;
      LabelledClaimOf(fwd, nodes, ids, leaders, y);
      var j :| 0 <= j < |leaders| && y in Claim(fwd, nodes, leaders, j) && ids[y] == j + 1;
      ClaimsAreComponents(fwd, rev, nodes, order, leaders, i);
      ClaimsAreComponents(fwd, rev, nodes, order, leaders, j);
      var u := leaders[i];
      if i == j {
        ReachesTrans(fwd, x, u, y);
        ReachesTrans(fwd, y, u, x);
      }
      if Reaches(fwd, x, y) && Reaches(fwd, y, x) {
        ReachesTrans(fwd, u, x, y);
        ReachesTrans(fwd, y, x, u);
        assert y in Component(fwd, nodes, u);
      }
    }
  }
}
