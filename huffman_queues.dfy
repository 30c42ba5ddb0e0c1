/** The two queues of Huffman.solve: nodes, the leaves sorted by weight, and mergedNodes,
    the merged nodes in the order they were made. Each round takes the lighter front twice
    and appends the node merging the two; the last node made is the root. */
module HuffmanQueues {
  import opened Wrappers
  import opened HuffmanTrees

  /** TreeNode.__lt__ (lines 36-37): a is strictly lighter than b. */
  predicate Lighter(a: TreeNode, b: TreeNode)
  {
    a.freq < b.freq
  }

  /** The node lines 92-95 take, and lines 97-100 again: the front of nodes when
      mergedNodes is empty or the front of nodes is strictly lighter, and otherwise the
      front of mergedNodes; with the two queues that remain. */
  function Pop(nodes: seq<TreeNode>, merged: seq<TreeNode>): (r: (TreeNode, seq<TreeNode>, seq<TreeNode>))
    requires |nodes| + |merged| >= 1
    ensures |r.1| + |r.2| == |nodes| + |merged| - 1
  {
    if merged == [] || (nodes != [] && Lighter(nodes[0], merged[0])) then (nodes[0], nodes[1..], merged)
    else (merged[0], nodes, merged[1..])
  }

  /** The node line 109 makes from left and right, after lines 103-104 wrote their digits. */
  function Join(left: TreeNode, right: TreeNode): TreeNode
  {
    Node(left.freq + right.freq, left.(huff := "0"), right.(huff := "1"), "")
  }

  /** The two nodes a round takes (lines 92-100), left first, and the queues left. */
  function Take2(nodes: seq<TreeNode>, merged: seq<TreeNode>): (r: (TreeNode, TreeNode, seq<TreeNode>, seq<TreeNode>))
    requires |nodes| + |merged| >= 2
    ensures |r.2| + |r.3| == |nodes| + |merged| - 2
  {
    var (left, n1, m1) := Pop(nodes, merged);
    var (right, n2, m2) := Pop(n1, m1);
    (left, right, n2, m2)
  }

  /** One round of the loop (lines 92-110): two nodes leave the queues and their merge
      joins mergedNodes, so the queues hold one node fewer. */
  function Merge(nodes: seq<TreeNode>, merged: seq<TreeNode>): (r: (seq<TreeNode>, seq<TreeNode>))
    requires |nodes| + |merged| >= 2
    ensures |r.0| + |r.1| == |nodes| + |merged| - 1 && |r.1| >= 1
  {
    var (left, right, n, m) := Take2(nodes, merged);
    (n, m + [Join(left, right)])
  }

  /** The loop of lines 89-113 run on the two queues, root being the last node merged so
      far: rounds while the queues hold two nodes or more, then the root. */
  function Run(nodes: seq<TreeNode>, merged: seq<TreeNode>, root: Option<TreeNode>): Option<TreeNode>
    decreases |nodes| + |merged|
  {
    if |nodes| + |merged| > 1 then
      var (n, m) := Merge(nodes, merged);
      Run(n, m, Some(m[|m| - 1]))
    else root
  }

  // What the queues hold

  function Sum(q: seq<TreeNode>): int
  {
    if q == [] then 0 else q[0].freq + Sum(q[1..])
  }

  function Bags(q: seq<TreeNode>): multiset<nat>
  {
    if q == [] then multiset{} else Bag(q[0]) + Bags(q[1..])
  }

  lemma {:induction false} Appended(q: seq<TreeNode>, t: TreeNode)
    ensures Sum(q + [t]) == Sum(q) + t.freq && Bags(q + [t]) == Bags(q) + Bag(t)
  {
    if q != [] {
      assert (q + [t])[1..] == q[1..] + [t];
      Appended(q[1..], t);
    }
  }

  /** The leaves the constructor queues: leaves not merged yet, no symbol twice. */
  ghost predicate Leaves(q: seq<TreeNode>)
  {
    (forall i :: 0 <= i < |q| ==> q[i].Leaf? && q[i].huff == "")
    && forall i, j :: 0 <= i < j < |q| ==> q[i].symbol != q[j].symbol
  }

  /** The invariant of the loop: nodes holds leaves, mergedNodes labelled merged nodes,
      neither merged into anything yet, and no symbol is at two leaves of the two queues. */
  ghost predicate Forest(nodes: seq<TreeNode>, merged: seq<TreeNode>)
  {
    (forall i :: 0 <= i < |nodes| ==> nodes[i].Leaf? && nodes[i].huff == "")
    && (forall i :: 0 <= i < |merged| ==> merged[i].Node? && merged[i].huff == "" && Labelled(merged[i]))
    && forall c :: (Bags(nodes) + Bags(merged))[c] <= 1
  }

  /** root is the last node merged, if any. */
  ghost predicate RootOk(merged: seq<TreeNode>, root: Option<TreeNode>)
  {
    (root.None? ==> merged == []) && (root.Some? ==> merged != [] && root.value == merged[|merged| - 1])
  }

  lemma {:induction false} LeavesForest(q: seq<TreeNode>)
    requires Leaves(q)
    ensures Forest(q, [])
  {
    if q != [] {
      LeavesForest(q[1..]);
      assert Bags(q[1..]) + Bags([]) == Bags(q[1..]);
      assert Bags(q) + Bags([]) == Bags(q) == multiset{q[0].symbol} + Bags(q[1..]);
      forall c ensures Bags(q)[c] <= 1 {
        if c == q[0].symbol {
          forall i | 0 <= i < |q[1..]| ensures q[1..][i].Leaf? && q[1..][i].symbol != c {
            assert q[1..][i] == q[i + 1];
          }
          Missing(q[1..], c);
        }
      }
    }
  }

  /** A symbol no leaf of q carries is not in q. */
  lemma {:induction false} Missing(q: seq<TreeNode>, c: nat)
    requires forall i :: 0 <= i < |q| ==> q[i].Leaf? && q[i].symbol != c
    ensures c !in Bags(q)
  {
    if q != [] {
      Missing(q[1..], c);
    }
  }


  /** A round that took k nodes from nodes and j from mergedNodes: x is the front of one
      queue, y the next front, and every node taken is x or y. */
  ghost predicate Shape(nodes: seq<TreeNode>, merged: seq<TreeNode>, k: nat, j: nat, x: TreeNode, y: TreeNode)
  {
    k + j == 2 && k <= |nodes| && j <= |merged|
    && ((k >= 1 && x == nodes[0]) || (j >= 1 && x == merged[0]))
    && ((k >= 1 && y == nodes[k - 1]) || (j >= 1 && y == merged[j - 1]))
    && (forall i :: 0 <= i < k ==> nodes[i] == x || nodes[i] == y)
    && (forall i :: 0 <= i < j ==> merged[i] == x || merged[i] == y)
  }

  /** The symbols and weights of the two queues are in x, y and what is left. */
  ghost predicate Conserves(nodes: seq<TreeNode>, merged: seq<TreeNode>, k: nat, j: nat, x: TreeNode, y: TreeNode)
    requires k <= |nodes| && j <= |merged|
  {
    && Bag(x) + Bag(y) + Bags(nodes[k..]) + Bags(merged[j..]) == Bags(nodes) + Bags(merged)
    && x.freq + y.freq + Sum(nodes[k..]) + Sum(merged[j..]) == Sum(nodes) + Sum(merged)
  }

  /** Pop takes a front and keeps the symbols and weights. */
  lemma PopShape(nodes: seq<TreeNode>, merged: seq<TreeNode>)
    requires |nodes| + |merged| >= 1
    ensures var (x, n, m) := Pop(nodes, merged);
      && ((nodes != [] && x == nodes[0] && n == nodes[1..] && m == merged)
          || (merged != [] && x == merged[0] && n == nodes && m == merged[1..]))
      && Bag(x) + Bags(n) + Bags(m) == Bags(nodes) + Bags(merged)
      && x.freq + Sum(n) + Sum(m) == Sum(nodes) + Sum(merged)
  {
  }

  /** Every round has that shape: it takes two fronts and appends their merge. */
  lemma MergeShape(nodes: seq<TreeNode>, merged: seq<TreeNode>) returns (k: nat, j: nat, x: TreeNode, y: TreeNode)
    requires |nodes| + |merged| >= 2
    ensures Shape(nodes, merged, k, j, x, y) && Conserves(nodes, merged, k, j, x, y)
    ensures Take2(nodes, merged) == (x, y, nodes[k..], merged[j..])
    ensures Merge(nodes, merged) == (nodes[k..], merged[j..] + [Join(x, y)])
  {
    k, j, x, y := TakeShape(nodes, merged);
    TakeConserves(nodes, merged, k, j, x, y);
  }

  /** A run of two nodes or more goes on from the queues its first round leaves. */
  lemma RunStep(nodes: seq<TreeNode>, merged: seq<TreeNode>, root: Option<TreeNode>, n: seq<TreeNode>, m: seq<TreeNode>)
    requires |nodes| + |merged| >= 2 && Merge(nodes, merged) == (n, m)
    ensures |m| >= 1 && Run(nodes, merged, root) == Run(n, m, Some(m[|m| - 1]))
  {
  }

  lemma TakeShape(nodes: seq<TreeNode>, merged: seq<TreeNode>) returns (k: nat, j: nat, x: TreeNode, y: TreeNode)
    requires |nodes| + |merged| >= 2
    ensures Shape(nodes, merged, k, j, x, y)
    ensures Take2(nodes, merged) == (x, y, nodes[k..], merged[j..])
  {
    var (x1, n1, m1) := Pop(nodes, merged);
    var (y1, n2, m2) := Pop(n1, m1);
    x, y := x1, y1;
    k, j := |nodes| - |n2|, |merged| - |m2|;
    if |n1| < |nodes| {
      assert x == nodes[0] && n1 == nodes[1..] && m1 == merged;
      if |n2| < |n1| {
        assert y == nodes[1] && n2 == nodes[2..] && m2 == merged;
      } else {
        assert y == merged[0] && n2 == nodes[1..] && m2 == merged[1..];
      }
    } else {
      assert x == merged[0] && n1 == nodes && m1 == merged[1..];
      if |n2| < |n1| {
        assert y == nodes[0] && n2 == nodes[1..] && m2 == merged[1..];
      } else {
        assert y == merged[1] && n2 == nodes && m2 == merged[2..];
      }
    }
  }

  lemma TakeConserves(nodes: seq<TreeNode>, merged: seq<TreeNode>, k: nat, j: nat, x: TreeNode, y: TreeNode)
    requires |nodes| + |merged| >= 2 && k <= |nodes| && j <= |merged|
    requires Take2(nodes, merged) == (x, y, nodes[k..], merged[j..])
    ensures Conserves(nodes, merged, k, j, x, y)
  {
    var p := Pop(nodes, merged);
    var q := Pop(p.1, p.2);
    PopKeeps(nodes, merged);
    PopKeeps(p.1, p.2);
    assert (p.0, q.0, q.1, q.2) == (x, y, nodes[k..], merged[j..]);
    Regroup(Bag(x), Bag(y), Bags(q.1), Bags(q.2), Bags(p.1) + Bags(p.2), Bags(nodes) + Bags(merged));
  }

  /** Pop keeps the symbols and weights. */
  lemma PopKeeps(nodes: seq<TreeNode>, merged: seq<TreeNode>)
    requires |nodes| + |merged| >= 1
    ensures Bag(Pop(nodes, merged).0) + Bags(Pop(nodes, merged).1) + Bags(Pop(nodes, merged).2) == Bags(nodes) + Bags(merged)
    ensures Pop(nodes, merged).0.freq + Sum(Pop(nodes, merged).1) + Sum(Pop(nodes, merged).2) == Sum(nodes) + Sum(merged)
  {
  }

  lemma Regroup(X: multiset<nat>, Y: multiset<nat>, A: multiset<nat>, B: multiset<nat>, P: multiset<nat>, T: multiset<nat>)
    requires Y + A + B == P && X + P == T
    ensures X + Y + A + B == T
  {
  }

  /** The two nodes a round takes are leaves or labelled merged nodes. */
  lemma TakenLabelled(nodes: seq<TreeNode>, merged: seq<TreeNode>, k: nat, j: nat, x: TreeNode, y: TreeNode)
    requires Forest(nodes, merged) && Shape(nodes, merged, k, j, x, y)
    ensures Labelled(x) && Labelled(y)
  {
  }

  /** A symbol counted at most once in A + B + C + D is in at most one of them. */
  lemma Once(A: multiset<nat>, B: multiset<nat>, C: multiset<nat>, D: multiset<nat>, c: nat)
    requires (A + B + C + D)[c] <= 1
    ensures c in A ==> c !in B && c !in C && c !in D
    ensures c in B ==> c !in C && c !in D
  {
  }

  /** A round keeps the symbols and the total weight. */
  lemma MergeBags(nodes: seq<TreeNode>, merged: seq<TreeNode>, k: nat, j: nat, x: TreeNode, y: TreeNode)
    requires k <= |nodes| && j <= |merged| && Conserves(nodes, merged, k, j, x, y)
    ensures Bags(nodes[k..]) + Bags(merged[j..] + [Join(x, y)]) == Bags(nodes) + Bags(merged)
    ensures Sum(nodes[k..]) + Sum(merged[j..] + [Join(x, y)]) == Sum(nodes) + Sum(merged)
  {
    Appended(merged[j..], Join(x, y));
    Relabelled(x, "0");
    Relabelled(y, "1");
    assert Bag(Join(x, y)) == Bag(x) + Bag(y);
  }

  /** A round keeps the invariant, the symbols and the total weight. */
  lemma MergeForest(nodes: seq<TreeNode>, merged: seq<TreeNode>, k: nat, j: nat, x: TreeNode, y: TreeNode)
    requires Forest(nodes, merged) && Shape(nodes, merged, k, j, x, y) && Conserves(nodes, merged, k, j, x, y)
    ensures Forest(nodes[k..], merged[j..] + [Join(x, y)])
    ensures Bags(nodes[k..]) + Bags(merged[j..] + [Join(x, y)]) == Bags(nodes) + Bags(merged)
    ensures Sum(nodes[k..]) + Sum(merged[j..] + [Join(x, y)]) == Sum(nodes) + Sum(merged)
  {
    MergeBags(nodes, merged, k, j, x, y);
    TakenLabelled(nodes, merged, k, j, x, y);
    Relabelled(x, "0");
    Relabelled(y, "1");
    var J := Join(x, y);
    assert Labelled(J);
    MergedKept(merged, j, J);
    NodesKept(nodes, k);
    var n', m' := nodes[k..], merged[j..] + [J];
    forall c ensures (Bags(n') + Bags(m'))[c] <= 1 {
      assert (Bags(n') + Bags(m'))[c] == (Bags(nodes) + Bags(merged))[c];
    }
  }

  /** nodes keeps holding leaves not yet merged when a round takes k of them. */
  lemma NodesKept(nodes: seq<TreeNode>, k: nat)
    requires k <= |nodes|
    requires forall i :: 0 <= i < |nodes| ==> nodes[i].Leaf? && nodes[i].huff == ""
    ensures forall i :: 0 <= i < |nodes| - k ==> nodes[k..][i].Leaf? && nodes[k..][i].huff == ""
  {
  }

  /** mergedNodes keeps holding labelled merged nodes when a round takes j of them and
      appends J. */
  lemma MergedKept(merged: seq<TreeNode>, j: nat, J: TreeNode)
    requires j <= |merged| && J.Node? && J.huff == "" && Labelled(J)
    requires forall i :: 0 <= i < |merged| ==> merged[i].Node? && merged[i].huff == "" && Labelled(merged[i])
    ensures forall i :: 0 <= i < |merged| - j + 1 ==>
      (merged[j..] + [J])[i].Node? && (merged[j..] + [J])[i].huff == "" && Labelled((merged[j..] + [J])[i])
  {
    var m' := merged[j..] + [J];
    forall i | 0 <= i < |m'| ensures m'[i].Node? && m'[i].huff == "" && Labelled(m'[i]) {
      if i < |merged| - j {
        assert m'[i] == merged[i + j];
      }
    }
  }

  /** A finished run leaves one tree holding every leaf once, labelled, and as heavy as all
      the queued nodes together. */
  lemma {:induction false} RunTree(nodes: seq<TreeNode>, merged: seq<TreeNode>, root: Option<TreeNode>)
    requires Forest(nodes, merged) && RootOk(merged, root) && (|nodes| + |merged| >= 2 || root.Some?)
    ensures Run(nodes, merged, root).Some?
    ensures var t := Run(nodes, merged, root).value;
      && t.huff == "" && Labelled(t) && Distinct(t)
      && Bag(t) == Bags(nodes) + Bags(merged) && t.freq == Sum(nodes) + Sum(merged)
    decreases |nodes| + |merged|
  {
    if |nodes| + |merged| > 1 {
      var k, j, x, y := MergeShape(nodes, merged);
      MergeForest(nodes, merged, k, j, x, y);
      var m' := merged[j..] + [Join(x, y)];
      RunStep(nodes, merged, root, nodes[k..], m');
      RunTree(nodes[k..], m', Some(m'[|m'| - 1]));
    } else {
      var t := root.value;
      assert nodes == [] && merged == [t];
      assert Bags(nodes) + Bags(merged) == Bag(t) && Sum(nodes) + Sum(merged) == t.freq;
    }
  }

  // Where a leaf is

  /** The index of the first node of q holding the leaf c, |q| when none does. */
  function Find(q: seq<TreeNode>, c: nat): (i: nat)
    ensures i <= |q|
  {
    if q == [] then 0 else if c in Bag(q[0]) then 0 else 1 + Find(q[1..], c)
  }

  lemma {:induction false} FindIn(q: seq<TreeNode>, c: nat)
    ensures c in Bags(q) <==> Find(q, c) < |q|
    ensures Find(q, c) < |q| ==> c in Bag(q[Find(q, c)])
  {
    if q != [] {
      FindIn(q[1..], c);
    }
  }

  lemma {:induction false} FindSuffix(q: seq<TreeNode>, c: nat, k: nat)
    requires k <= |q| && Find(q, c) >= k
    ensures Find(q[k..], c) == Find(q, c) - k
  {
    if k > 0 {
      assert q[1..][k - 1..] == q[k..];
      FindSuffix(q[1..], c, k - 1);
    }
  }

  lemma {:induction false} FindAppend(q: seq<TreeNode>, t: TreeNode, c: nat)
    ensures Find(q, c) < |q| ==> Find(q + [t], c) == Find(q, c)
    ensures Find(q, c) == |q| && c in Bag(t) ==> Find(q + [t], c) == |q|
  {
    if q != [] {
      assert (q + [t])[1..] == q[1..] + [t];
      FindAppend(q[1..], t, c);
    }
  }

  /** The place of the leaf c: in which queue, the index of its node there, and its depth
      below that node. */
  datatype Place = Place(inMerged: bool, index: nat, depth: nat)

  function PlaceOf(nodes: seq<TreeNode>, merged: seq<TreeNode>, c: nat): Place
  {
    var i := Find(nodes, c);
    if i < |nodes| then Place(false, i, Depth(nodes[i], c))
    else
      var j := Find(merged, c);
      Place(true, j, if j < |merged| then Depth(merged[j], c) else 0)
  }

  /** A place in queues of n and m nodes: a leaf of nodes, or below a node of mergedNodes. */
  predicate Valid(p: Place, n: nat, m: nat)
  {
    (!p.inMerged ==> p.index < n && p.depth == 0) && (p.inMerged ==> p.index < m && p.depth >= 1)
  }

  /** The place after a round that took k nodes from nodes and j from mergedNodes of m. */
  function Next(p: Place, k: nat, j: nat, m: nat): Place
    requires j <= m
  {
    if !p.inMerged && p.index >= k then Place(false, p.index - k, 0)
    else if p.inMerged && p.index >= j then Place(true, p.index - j, p.depth)
    else Place(true, m - j, p.depth + 1)
  }

  /** A leaf of a node the round took is one deeper, in the new node at the end of
      mergedNodes. */
  lemma PlaceTaken(nodes: seq<TreeNode>, merged: seq<TreeNode>, k: nat, j: nat, x: TreeNode, y: TreeNode, t: TreeNode, c: nat)
    requires k <= |nodes| && j <= |merged| && c !in Bags(nodes[k..]) && c !in Bags(merged[j..])
    requires (t == x && c in Bag(x)) || (t == y && c in Bag(y) && c !in Bag(x))
    ensures PlaceOf(nodes[k..], merged[j..] + [Join(x, y)], c) == Place(true, |merged| - j, 1 + Depth(t, c))
  {
    var J := Join(x, y);
    Relabelled(x, "0");
    Relabelled(y, "1");
    assert c in Bag(J) && Depth(J, c) == 1 + Depth(t, c);
    FindIn(nodes[k..], c);
    FindIn(merged[j..], c);
    FindAppend(merged[j..], J, c);
    assert Find(nodes[k..], c) == |nodes| - k;
    assert Find(merged[j..] + [J], c) == |merged| - j;
    assert (merged[j..] + [J])[|merged| - j] == J;
  }

  /** A leaf of a node of nodes the round did not take keeps its node, k places further
      up. */
  lemma PlaceKeptNode(nodes: seq<TreeNode>, merged: seq<TreeNode>, k: nat, j: nat, J: TreeNode, c: nat)
    requires k <= Find(nodes, c) < |nodes| && j <= |merged|
    ensures PlaceOf(nodes[k..], merged[j..] + [J], c) == Place(false, Find(nodes, c) - k, Depth(nodes[Find(nodes, c)], c))
  {
    FindSuffix(nodes, c, k);
  }

  /** A leaf of a node of mergedNodes the round did not take keeps its node, j places
      further up. */
  lemma PlaceKeptMerged(nodes: seq<TreeNode>, merged: seq<TreeNode>, k: nat, j: nat, J: TreeNode, c: nat)
    requires k <= |nodes| && Find(nodes, c) == |nodes| && j <= Find(merged, c) < |merged|
    requires merged[Find(merged, c)].Node?
    ensures Valid(PlaceOf(nodes, merged, c), |nodes|, |merged|)
    ensures PlaceOf(nodes[k..], merged[j..] + [J], c) == Next(PlaceOf(nodes, merged, c), k, j, |merged|)
  {
    var i := Find(merged, c);
    FindSuffix(nodes, c, k);
    FindSuffix(merged, c, j);
    FindIn(merged, c);
    FindIn(merged[j..], c);
    FindAppend(merged[j..], J, c);
    assert (merged[j..] + [J])[i - j] == merged[i];
  }

  /** A round moves every leaf as Next says. */
  lemma PlaceStep(nodes: seq<TreeNode>, merged: seq<TreeNode>, k: nat, j: nat, x: TreeNode, y: TreeNode, c: nat)
    requires Forest(nodes, merged) && Shape(nodes, merged, k, j, x, y) && Conserves(nodes, merged, k, j, x, y)
    requires c in Bags(nodes) + Bags(merged)
    ensures Valid(PlaceOf(nodes, merged, c), |nodes|, |merged|)
    ensures PlaceOf(nodes[k..], merged[j..] + [Join(x, y)], c) == Next(PlaceOf(nodes, merged, c), k, j, |merged|)
  {
    FindIn(nodes, c);
    FindIn(merged, c);
    if Find(nodes, c) < |nodes| {
      PlaceFromNodes(nodes, merged, k, j, x, y, c);
    } else {
      PlaceFromMerged(nodes, merged, k, j, x, y, c);
    }
  }

  lemma PlaceFromNodes(nodes: seq<TreeNode>, merged: seq<TreeNode>, k: nat, j: nat, x: TreeNode, y: TreeNode, c: nat)
    requires Forest(nodes, merged) && Shape(nodes, merged, k, j, x, y) && Conserves(nodes, merged, k, j, x, y)
    requires Find(nodes, c) < |nodes|
    ensures Valid(PlaceOf(nodes, merged, c), |nodes|, |merged|)
    ensures PlaceOf(nodes[k..], merged[j..] + [Join(x, y)], c) == Next(PlaceOf(nodes, merged, c), k, j, |merged|)
  {
    var i := Find(nodes, c);
    if i >= k {
      PlaceKeptLeaf(nodes, merged, k, j, Join(x, y), c);
    } else {
      FindIn(nodes, c);
      PlaceTakenLeaf(nodes, merged, k, j, x, y, c);
    }
  }

  lemma PlaceKeptLeaf(nodes: seq<TreeNode>, merged: seq<TreeNode>, k: nat, j: nat, J: TreeNode, c: nat)
    requires k <= Find(nodes, c) < |nodes| && j <= |merged| && nodes[Find(nodes, c)].Leaf?
    ensures Valid(PlaceOf(nodes, merged, c), |nodes|, |merged|)
    ensures PlaceOf(nodes[k..], merged[j..] + [J], c) == Next(PlaceOf(nodes, merged, c), k, j, |merged|)
  {
    PlaceKeptNode(nodes, merged, k, j, J, c);
  }

  lemma PlaceTakenLeaf(nodes: seq<TreeNode>, merged: seq<TreeNode>, k: nat, j: nat, x: TreeNode, y: TreeNode, c: nat)
    requires k <= |nodes| && j <= |merged| && Conserves(nodes, merged, k, j, x, y)
    requires forall c :: (Bags(nodes) + Bags(merged))[c] <= 1
    requires Find(nodes, c) < k && nodes[Find(nodes, c)].Leaf? && c in Bag(nodes[Find(nodes, c)])
    requires nodes[Find(nodes, c)] == x || nodes[Find(nodes, c)] == y
    ensures Valid(PlaceOf(nodes, merged, c), |nodes|, |merged|)
    ensures PlaceOf(nodes[k..], merged[j..] + [Join(x, y)], c) == Next(PlaceOf(nodes, merged, c), k, j, |merged|)
  {
    var t := nodes[Find(nodes, c)];
    TakenAt(nodes, merged, k, j, x, y, t, c);
  }

  lemma PlaceFromMerged(nodes: seq<TreeNode>, merged: seq<TreeNode>, k: nat, j: nat, x: TreeNode, y: TreeNode, c: nat)
    requires Forest(nodes, merged) && Shape(nodes, merged, k, j, x, y) && Conserves(nodes, merged, k, j, x, y)
    requires Find(nodes, c) == |nodes| && Find(merged, c) < |merged|
    ensures Valid(PlaceOf(nodes, merged, c), |nodes|, |merged|)
    ensures PlaceOf(nodes[k..], merged[j..] + [Join(x, y)], c) == Next(PlaceOf(nodes, merged, c), k, j, |merged|)
  {
    var i2 := Find(merged, c);
    assert merged[i2].Node?;
    if i2 >= j {
      PlaceKeptMerged(nodes, merged, k, j, Join(x, y), c);
    } else {
      FindIn(merged, c);
      TakenMerged(nodes, merged, k, j, x, y, c);
    }
  }

  lemma TakenMerged(nodes: seq<TreeNode>, merged: seq<TreeNode>, k: nat, j: nat, x: TreeNode, y: TreeNode, c: nat)
    requires k <= |nodes| && j <= |merged| && Conserves(nodes, merged, k, j, x, y)
    requires forall c :: (Bags(nodes) + Bags(merged))[c] <= 1
    requires Find(nodes, c) == |nodes| && Find(merged, c) < j && c in Bag(merged[Find(merged, c)])
    requires merged[Find(merged, c)].Node?
    requires merged[Find(merged, c)] == x || merged[Find(merged, c)] == y
    ensures Valid(PlaceOf(nodes, merged, c), |nodes|, |merged|)
    ensures PlaceOf(nodes[k..], merged[j..] + [Join(x, y)], c) == Next(PlaceOf(nodes, merged, c), k, j, |merged|)
  {
    TakenAt(nodes, merged, k, j, x, y, merged[Find(merged, c)], c);
  }

  /** A leaf of the taken node t is one deeper, in the new node. */
  lemma TakenAt(nodes: seq<TreeNode>, merged: seq<TreeNode>, k: nat, j: nat, x: TreeNode, y: TreeNode, t: TreeNode, c: nat)
    requires k <= |nodes| && j <= |merged| && Conserves(nodes, merged, k, j, x, y)
    requires forall c :: (Bags(nodes) + Bags(merged))[c] <= 1
    requires (t == x || t == y) && c in Bag(t)
    ensures PlaceOf(nodes[k..], merged[j..] + [Join(x, y)], c) == Place(true, |merged| - j, 1 + Depth(t, c))
  {
    assert (Bag(x) + Bag(y) + Bags(nodes[k..]) + Bags(merged[j..]))[c] <= 1;
    Once(Bag(x), Bag(y), Bags(nodes[k..]), Bags(merged[j..]), c);
    PlaceTaken(nodes, merged, k, j, x, y, t, c);
  }

  /** The tree of the leaf at p is taken no later than the tree of the leaf at q: it is
      deeper already, or as deep and no further back in the same queue. */
  predicate Before(p: Place, q: Place)
  {
    (!p.inMerged && !q.inMerged && p.index < q.index)
    || (p.inMerged && !q.inMerged)
    || (p.inMerged && q.inMerged && (p.depth > q.depth || (p.depth == q.depth && p.index <= q.index)))
  }

  /** Before survives a round: the two queues are first in, first out. */
  lemma NextBefore(p: Place, q: Place, k: nat, j: nat, n: nat, m: nat)
    requires Before(p, q) && Valid(p, n, m) && Valid(q, n, m) && k + j == 2 && k <= n && j <= m
    ensures Before(Next(p, k, j, m), Next(q, k, j, m))
  {
  }

  /** Before survives a round. */
  lemma StepBefore(nodes: seq<TreeNode>, merged: seq<TreeNode>, k: nat, j: nat, x: TreeNode, y: TreeNode, b: nat, a: nat)
    requires Forest(nodes, merged) && Shape(nodes, merged, k, j, x, y) && Conserves(nodes, merged, k, j, x, y)
    requires b in Bags(nodes) + Bags(merged) && a in Bags(nodes) + Bags(merged)
    requires Before(PlaceOf(nodes, merged, b), PlaceOf(nodes, merged, a))
    ensures Before(PlaceOf(nodes[k..], merged[j..] + [Join(x, y)], b), PlaceOf(nodes[k..], merged[j..] + [Join(x, y)], a))
  {
    PlaceStep(nodes, merged, k, j, x, y, b);
    PlaceStep(nodes, merged, k, j, x, y, a);
    NextBefore(PlaceOf(nodes, merged, b), PlaceOf(nodes, merged, a), k, j, |nodes|, |merged|);
  }

  /** A leaf whose tree is taken no later than the tree of another ends up at least as deep
      in the root. */
  lemma {:induction false} RunOrder(nodes: seq<TreeNode>, merged: seq<TreeNode>, root: Option<TreeNode>, b: nat, a: nat)
    requires Forest(nodes, merged) && RootOk(merged, root) && (|nodes| + |merged| >= 2 || root.Some?)
    requires b in Bags(nodes) + Bags(merged) && a in Bags(nodes) + Bags(merged)
    requires Before(PlaceOf(nodes, merged, b), PlaceOf(nodes, merged, a))
    ensures Run(nodes, merged, root).Some?
    ensures Depth(Run(nodes, merged, root).value, b) >= Depth(Run(nodes, merged, root).value, a)
    decreases |nodes| + |merged|
  {
    if |nodes| + |merged| > 1 {
      var k, j, x, y := MergeShape(nodes, merged);
      MergeForest(nodes, merged, k, j, x, y);
      StepBefore(nodes, merged, k, j, x, y, b, a);
      var m' := merged[j..] + [Join(x, y)];
      RunStep(nodes, merged, root, nodes[k..], m');
      RunOrder(nodes[k..], m', Some(m'[|m'| - 1]), b, a);
    } else {
      assert nodes == [] && merged == [root.value];
      FindIn(merged, b);
      FindIn(merged, a);
    }
  }

  /** In the queue of leaves, the leaf at index i is found there. */
  lemma {:induction false} FindLeaf(q: seq<TreeNode>, i: nat)
    requires Leaves(q) && i < |q|
    ensures Find(q, q[i].symbol) == i
  {
    if i > 0 {
      FindLeaf(q[1..], i - 1);
    }
  }

  // Theorems about a whole run from the sorted leaves

  /** The loop makes a tree exactly when there are two leaves or more (with fewer, root
      stays None); the tree holds every leaf once, is labelled, and weighs the sum of the
      weights. */
  lemma Built(q: seq<TreeNode>)
    requires Leaves(q)
    ensures Run(q, [], None).Some? <==> |q| >= 2
    ensures |q| >= 2 ==> var t := Run(q, [], None).value;
      && t.huff == "" && Labelled(t) && Distinct(t) && Bag(t) == Bags(q) && t.freq == Sum(q)
  {
    if |q| >= 2 {
      LeavesForest(q);
      RunTree(q, [], None);
      assert Bags(q) + Bags([]) == Bags(q);
    }
  }

  /** A leaf that comes earlier in the queue of leaves ends up at least as deep in the tree
      as a later one. */
  lemma Deeper(q: seq<TreeNode>, i: nat, j: nat)
    requires Leaves(q) && i < j < |q|
    ensures Run(q, [], None).Some?
    ensures Depth(Run(q, [], None).value, q[i].symbol) >= Depth(Run(q, [], None).value, q[j].symbol)
  {
    LeavesForest(q);
    FindLeaf(q, i);
    FindLeaf(q, j);
    FindIn(q, q[i].symbol);
    FindIn(q, q[j].symbol);
    assert Bags(q) + Bags([]) == Bags(q);
    RunOrder(q, [], None, q[i].symbol, q[j].symbol);
  }

  // Order of the queues

  ghost predicate Sorted(q: seq<TreeNode>)
  {
    forall i, j :: 0 <= i < j < |q| ==> q[i].freq <= q[j].freq
  }

  ghost predicate NonNegative(q: seq<TreeNode>)
  {
    forall i :: 0 <= i < |q| ==> q[i].freq >= 0
  }

  /** The last merged node weighs no more than any two nodes the next round can take. */
  ghost predicate Bounded(nodes: seq<TreeNode>, merged: seq<TreeNode>)
  {
    merged != [] ==>
      var last := merged[|merged| - 1].freq;
      && (|nodes| >= 2 ==> last <= nodes[0].freq + nodes[1].freq)
      && (nodes != [] ==> last <= nodes[0].freq + merged[0].freq)
      && (|merged| >= 2 ==> last <= merged[0].freq + merged[1].freq)
  }

  /** With both queues sorted, the node taken weighs no more than any node left in either
      queue, and on a tie between the fronts it comes from mergedNodes. */
  lemma PopLeast(nodes: seq<TreeNode>, merged: seq<TreeNode>)
    requires |nodes| + |merged| >= 1 && Sorted(nodes) && Sorted(merged)
    ensures var (x, n, m) := Pop(nodes, merged);
      && (forall i :: 0 <= i < |n| ==> x.freq <= n[i].freq)
      && (forall i :: 0 <= i < |m| ==> x.freq <= m[i].freq)
      && Sorted(n) && Sorted(m)
    ensures nodes != [] && merged != [] && nodes[0].freq == merged[0].freq ==> Pop(nodes, merged).0 == merged[0]
  {
  }

  /** The last merged node weighs no more than the two nodes the round takes. */
  lemma LastBound(nodes: seq<TreeNode>, merged: seq<TreeNode>)
    requires |nodes| + |merged| >= 2 && Bounded(nodes, merged) && merged != []
    ensures merged[|merged| - 1].freq <= Take2(nodes, merged).0.freq + Take2(nodes, merged).1.freq
  {
  }

  /** The node a round appends, weighing x and y together, bounds what the next round
      takes when y is no heavier than any node left. */
  lemma NewBound(nodes: seq<TreeNode>, merged: seq<TreeNode>, x: TreeNode, y: TreeNode)
    requires NonNegative(nodes) && NonNegative(merged) && 0 <= x.freq <= y.freq
    requires forall i :: 0 <= i < |nodes| ==> y.freq <= nodes[i].freq
    requires forall i :: 0 <= i < |merged| ==> y.freq <= merged[i].freq
    ensures Bounded(nodes, merged + [Join(x, y)]) && NonNegative(merged + [Join(x, y)])
  {
  }

  /** Appending a node no lighter than the last keeps a queue sorted. */
  lemma SortedAppend(q: seq<TreeNode>, t: TreeNode)
    requires Sorted(q) && (q != [] ==> q[|q| - 1].freq <= t.freq)
    ensures Sorted(q + [t])
  {
  }

  /** The second node a round takes is no lighter than the first, nor than no node left. */
  lemma TakeLeast(nodes: seq<TreeNode>, merged: seq<TreeNode>)
    requires |nodes| + |merged| >= 2 && Sorted(nodes) && Sorted(merged)
    ensures var (x, y, n, m) := Take2(nodes, merged);
      && x.freq <= y.freq && Sorted(n) && Sorted(m)
      && (forall i :: 0 <= i < |n| ==> y.freq <= n[i].freq)
      && (forall i :: 0 <= i < |m| ==> y.freq <= m[i].freq)
  {
    var (x, n1, m1) := Pop(nodes, merged);
    PopLeast(nodes, merged);
    PopLeast(n1, m1);
    PopShape(n1, m1);
  }

  /** A round keeps both queues sorted, when no weight is negative: the node it appends
      weighs at least as much as every node made before. */
  lemma MergeSorted(nodes: seq<TreeNode>, merged: seq<TreeNode>)
    requires |nodes| + |merged| >= 2 && Sorted(nodes) && Sorted(merged) && Bounded(nodes, merged)
    requires NonNegative(nodes) && NonNegative(merged)
    ensures var (n, m) := Merge(nodes, merged);
      Sorted(n) && Sorted(m) && Bounded(n, m) && NonNegative(n) && NonNegative(m)
  {
    var k, j, x, y := MergeShape(nodes, merged);
    TakeLeast(nodes, merged);
    var n2, m2 := nodes[k..], merged[j..];
    assert x.freq >= 0;
    assert NonNegative(n2) && NonNegative(m2);
    NewBound(n2, m2, x, y);
    if m2 != [] {
      LastBound(nodes, merged);
      assert m2[|m2| - 1] == merged[|merged| - 1];
    }
    SortedAppend(m2, Join(x, y));
  }
}
