/** Huffman coding with two queues (huffmanCode.py): the constructor reads the weights and
    notes a symbol of least and one of greatest weight, solve builds the tree and decode
    reads the code of every symbol off it; the answers are the code lengths of the two
    noted symbols. */
module HuffmanCode {
  import opened Wrappers
  import opened HuffmanTrees
  import opened HuffmanQueues

  /** What solve raises: decode on the missing root of fewer than two symbols reads the
      huff of None, and a noted symbol without a code is a missing key. */
  datatype Error = AttributeError | KeyError(key: Option<nat>)

  /** The leaf the constructor makes for each weight, symbol i + 1 for the weight at index
      i (lines 68-71). */
  function LeavesOf(weights: seq<int>): (q: seq<TreeNode>)
    ensures |q| == |weights| && Leaves(q)
    ensures forall i :: 0 <= i < |q| ==> q[i] == Leaf(weights[i], i + 1, "")
  {
    seq(|weights|, i requires 0 <= i < |weights| => Leaf(weights[i], i + 1, ""))
  }

  // Which symbol the constructor notes

  /** s is the first symbol of least weight among the first n. */
  ghost predicate FirstLeast(weights: seq<int>, n: nat, s: nat)
    requires n <= |weights|
  {
    1 <= s <= n
    && (forall i :: 0 <= i < n ==> weights[s - 1] <= weights[i])
    && (forall i :: 0 <= i < s - 1 ==> weights[s - 1] < weights[i])
  }

  /** s is the first symbol of greatest weight among the first n. */
  ghost predicate FirstGreatest(weights: seq<int>, n: nat, s: nat)
    requires n <= |weights|
  {
    1 <= s <= n
    && (forall i :: 0 <= i < n ==> weights[i] <= weights[s - 1])
    && (forall i :: 0 <= i < s - 1 ==> weights[i] < weights[s - 1])
  }

  /** s is the last symbol of greatest weight among the first n. */
  ghost predicate LastGreatest(weights: seq<int>, n: nat, s: nat)
    requires n <= |weights|
  {
    1 <= s <= n
    && (forall i :: 0 <= i < n ==> weights[i] <= weights[s - 1])
    && (forall i :: s - 1 < i < n ==> weights[i] < weights[s - 1])
  }

  /** The leaves made for the first n weights. */
  ghost predicate LeavesUpTo(weights: seq<int>, n: nat, nodes: seq<TreeNode>)
    requires n <= |weights|
  {
    |nodes| == n && forall k :: 0 <= k < n ==> nodes[k] == Leaf(weights[k], k + 1, "")
  }

  /** Reading weight i keeps minFreq on the first symbol of least weight read: the new
      symbol replaces it when strictly lighter, or when it is the first. */
  lemma NoteFirstLeast(weights: seq<int>, i: nat, minFreq: Option<(int, nat)>, minFreq': Option<(int, nat)>)
    requires 1 <= i <= |weights|
    requires minFreq.Some? <==> i > 1
    requires minFreq.Some? ==> FirstLeast(weights, i - 1, minFreq.value.1) && minFreq.value.0 == weights[minFreq.value.1 - 1]
    requires minFreq' == if minFreq.None? || weights[i - 1] < minFreq.value.0 then Some((weights[i - 1], i)) else minFreq
    ensures minFreq'.Some? && FirstLeast(weights, i, minFreq'.value.1) && minFreq'.value.0 == weights[minFreq'.value.1 - 1]
  {
  }

  /** Reading weight i keeps maxFreq on the first symbol of greatest weight read: the new
      symbol replaces it when strictly heavier, or when it is the first. */
  lemma NoteFirstGreatest(weights: seq<int>, i: nat, maxFreq: Option<(int, nat)>, maxFreq': Option<(int, nat)>)
    requires 1 <= i <= |weights|
    requires maxFreq.Some? <==> i > 1
    requires maxFreq.Some? ==> FirstGreatest(weights, i - 1, maxFreq.value.1) && maxFreq.value.0 == weights[maxFreq.value.1 - 1]
    requires maxFreq' == if maxFreq.None? || weights[i - 1] > maxFreq.value.0 then Some((weights[i - 1], i)) else maxFreq
    ensures maxFreq'.Some? && FirstGreatest(weights, i, maxFreq'.value.1) && maxFreq'.value.0 == weights[maxFreq'.value.1 - 1]
  {
  }

  /** With the comparison made non-strict, the new symbol replaces maxFreq also when as
      heavy, so maxFreq stays on the last symbol of greatest weight read. */
  lemma NoteLastGreatest(weights: seq<int>, i: nat, maxFreq: Option<(int, nat)>, maxFreq': Option<(int, nat)>)
    requires 1 <= i <= |weights|
    requires maxFreq.Some? <==> i > 1
    requires maxFreq.Some? ==> LastGreatest(weights, i - 1, maxFreq.value.1) && maxFreq.value.0 == weights[maxFreq.value.1 - 1]
    requires maxFreq' == if maxFreq.None? || weights[i - 1] >= maxFreq.value.0 then Some((weights[i - 1], i)) else maxFreq
    ensures maxFreq'.Some? && LastGreatest(weights, i, maxFreq'.value.1) && maxFreq'.value.0 == weights[maxFreq'.value.1 - 1]
  {
  }

  /** The loop of lines 52-71 over the weight lines: one leaf per weight, and the symbols
      of the first strictly greatest and the first strictly least weight; both stay None
      (the sentinels float('-inf') and float('inf') with no symbol) when there is no
      weight. */
  method Read(weights: seq<int>) returns (nodes: seq<TreeNode>, minFreqChar: Option<nat>, maxFreqChar: Option<nat>)
    ensures nodes == LeavesOf(weights)
    ensures minFreqChar.Some? <==> |weights| >= 1
    ensures maxFreqChar.Some? <==> |weights| >= 1
    ensures minFreqChar.Some? ==> FirstLeast(weights, |weights|, minFreqChar.value)
    ensures maxFreqChar.Some? ==> FirstGreatest(weights, |weights|, maxFreqChar.value)
  {
    nodes := [];
    var maxFreq: Option<(int, nat)> := None;
    var minFreq: Option<(int, nat)> := None;
    var i := 1;
    while i <= |weights|
      invariant 1 <= i <= |weights| + 1
      invariant LeavesUpTo(weights, i - 1, nodes)
      invariant minFreq.Some? <==> i > 1
      invariant maxFreq.Some? <==> i > 1
      invariant minFreq.Some? ==> FirstLeast(weights, i - 1, minFreq.value.1) && minFreq.value.0 == weights[minFreq.value.1 - 1]
      invariant maxFreq.Some? ==> FirstGreatest(weights, i - 1, maxFreq.value.1) && maxFreq.value.0 == weights[maxFreq.value.1 - 1]
    {
      var weight := weights[i - 1];
      ghost var (max0, min0) := (maxFreq, minFreq);
      if maxFreq.None? || weight > maxFreq.value.0 {
        maxFreq := Some((weight, i));
      }
      if minFreq.None? || weight < minFreq.value.0 {
        minFreq := Some((weight, i));
      }
      NoteFirstGreatest(weights, i, max0, maxFreq);
      NoteFirstLeast(weights, i, min0, minFreq);
      nodes := nodes + [Leaf(weight, i, "")];
      i := i + 1;
    }
    minFreqChar := if minFreq.Some? then Some(minFreq.value.1) else None;
    maxFreqChar := if maxFreq.Some? then Some(maxFreq.value.1) else None;
  }

  /** Read with the comparison for the greatest weight made non-strict, so that the last
      symbol of greatest weight is noted: the one the sorted queue holds last. */
  method ReadFixed(weights: seq<int>) returns (nodes: seq<TreeNode>, minFreqChar: Option<nat>, maxFreqChar: Option<nat>)
    ensures nodes == LeavesOf(weights)
    ensures minFreqChar.Some? <==> |weights| >= 1
    ensures maxFreqChar.Some? <==> |weights| >= 1
    ensures minFreqChar.Some? ==> FirstLeast(weights, |weights|, minFreqChar.value)
    ensures maxFreqChar.Some? ==> LastGreatest(weights, |weights|, maxFreqChar.value)
  {
    nodes := [];
    var maxFreq: Option<(int, nat)> := None;
    var minFreq: Option<(int, nat)> := None;
    var i := 1;
    while i <= |weights|
      invariant 1 <= i <= |weights| + 1
      invariant LeavesUpTo(weights, i - 1, nodes)
      invariant minFreq.Some? <==> i > 1
      invariant maxFreq.Some? <==> i > 1
      invariant minFreq.Some? ==> FirstLeast(weights, i - 1, minFreq.value.1) && minFreq.value.0 == weights[minFreq.value.1 - 1]
      invariant maxFreq.Some? ==> LastGreatest(weights, i - 1, maxFreq.value.1) && maxFreq.value.0 == weights[maxFreq.value.1 - 1]
    {
      var weight := weights[i - 1];
      ghost var (max0, min0) := (maxFreq, minFreq);
      if maxFreq.None? || weight >= maxFreq.value.0 {
        maxFreq := Some((weight, i));
      }
      if minFreq.None? || weight < minFreq.value.0 {
        minFreq := Some((weight, i));
      }
      NoteLastGreatest(weights, i, max0, maxFreq);
      NoteFirstLeast(weights, i, min0, minFreq);
      nodes := nodes + [Leaf(weight, i, "")];
      i := i + 1;
    }
    minFreqChar := if minFreq.Some? then Some(minFreq.value.1) else None;
    maxFreqChar := if maxFreq.Some? then Some(maxFreq.value.1) else None;
  }

  // The sort of line 77

  /** The order of the sorted queue: lighter first, and among equal weights the earlier
      symbol first, as the stable sort keeps them. */
  predicate Earlier(a: TreeNode, b: TreeNode)
  {
    a.freq < b.freq || (a.freq == b.freq && a.Leaf? && b.Leaf? && a.symbol < b.symbol)
  }

  /** An element of q is at some index. */
  lemma Member(q: seq<TreeNode>, x: TreeNode) returns (k: nat)
    requires x in multiset(q)
    ensures k < |q| && q[k] == x
  {
    assert x in q;
    k :| 0 <= k < |q| && q[k] == x;
  }

  ghost predicate Ordered(q: seq<TreeNode>)
  {
    forall i, j :: 0 <= i < j < |q| ==> Earlier(q[i], q[j])
  }

  function Insert(t: TreeNode, q: seq<TreeNode>): (r: seq<TreeNode>)
    ensures multiset(r) == multiset(q) + multiset{t}
  {
    if q == [] || Earlier(t, q[0]) then [t] + q
    else
      assert q == [q[0]] + q[1..];
      [q[0]] + Insert(t, q[1..])
  }

  /** sorted(nodes, key=lambda x: x.freq) (line 77), for nodes whose symbols increase along
      the list: the stable sort by weight is then the sort by weight and symbol. */
  function SortByFreq(q: seq<TreeNode>): (r: seq<TreeNode>)
    ensures multiset(r) == multiset(q)
  {
    if q == [] then []
    else
      assert q == [q[0]] + q[1..];
      Insert(q[0], SortByFreq(q[1..]))
  }

  lemma {:induction false} InsertOrdered(t: TreeNode, q: seq<TreeNode>)
    requires t.Leaf? && forall i :: 0 <= i < |q| ==> q[i].Leaf? && q[i].symbol != t.symbol
    requires Ordered(q)
    ensures Ordered(Insert(t, q))
  {
    if q != [] && !Earlier(t, q[0]) {
      InsertOrdered(t, q[1..]);
      var r := Insert(t, q[1..]);
      forall j | 0 <= j < |r| ensures Earlier(q[0], r[j]) {
        assert r[j] in multiset(r);
        if r[j] != t {
          var k := Member(q[1..], r[j]);
          assert q[k + 1] == r[j];
        }
      }
    }
  }

  /** The sort is stable: the queue comes out sorted by weight, ties in input order, and it
      holds the nodes it was given. */
  lemma {:induction false} SortOrdered(q: seq<TreeNode>)
    requires forall i :: 0 <= i < |q| ==> q[i].Leaf?
    requires forall i, j :: 0 <= i < j < |q| ==> q[i].symbol < q[j].symbol
    ensures Ordered(SortByFreq(q)) && multiset(SortByFreq(q)) == multiset(q)
  {
    if q != [] {
      SortOrdered(q[1..]);
      var s := SortByFreq(q[1..]);
      forall i | 0 <= i < |s| ensures s[i].Leaf? && s[i].symbol != q[0].symbol {
        var k := Member(q[1..], s[i]);
        assert q[k + 1] == s[i];
      }
      InsertOrdered(q[0], s);
    }
  }

  /** The queue solve is given holds the leaf of every weight once, in order. */
  lemma SortedLeaves(weights: seq<int>)
    ensures var q := SortByFreq(LeavesOf(weights));
      Leaves(q) && Ordered(q) && multiset(q) == multiset(LeavesOf(weights)) && |q| == |weights|
  {
    var p := LeavesOf(weights);
    SortOrdered(p);
    var q := SortByFreq(p);
    assert |q| == |multiset(q)| == |p|;
    FromInput(weights, q);
    Distinct(weights, q);
  }

  /** Every node of a reordering of the leaves is the leaf of its own symbol. */
  lemma FromInput(weights: seq<int>, q: seq<TreeNode>)
    requires multiset(q) == multiset(LeavesOf(weights))
    ensures forall i :: 0 <= i < |q| ==>
      q[i].Leaf? && q[i].huff == "" && 1 <= q[i].symbol <= |weights| && q[i].freq == weights[q[i].symbol - 1]
  {
    forall i | 0 <= i < |q|
      ensures q[i].Leaf? && q[i].huff == "" && 1 <= q[i].symbol <= |weights| && q[i].freq == weights[q[i].symbol - 1]
    {
      assert q[i] in multiset(q);
      var k := Member(LeavesOf(weights), q[i]);
    }
  }

  /** Ordered leaves of which each is the leaf of its own symbol carry distinct symbols. */
  lemma Distinct(weights: seq<int>, q: seq<TreeNode>)
    requires Ordered(q)
    requires forall i :: 0 <= i < |q| ==>
      q[i].Leaf? && q[i].huff == "" && 1 <= q[i].symbol <= |weights| && q[i].freq == weights[q[i].symbol - 1]
    ensures Leaves(q)
  {
    forall i, j | 0 <= i < j < |q| ensures q[i].symbol != q[j].symbol {
      assert Earlier(q[i], q[j]);
    }
  }

  // The tree and the codes

  /** The loop of lines 84-113 on two deques, nodes and mergedNodes, each round taking the
      two lightest fronts (lines 92-100), writing their digits (lines 103-104) and appending
      their merge (lines 109-113); it leaves the last node merged, None when there was
      none. */
  method BuildTree(queue: seq<TreeNode>) returns (root: Option<TreeNode>)
    ensures root == Run(queue, [], None)
    ensures Leaves(queue) ==> (root.Some? <==> |queue| >= 2)
    ensures Leaves(queue) && root.Some? ==> root.value.freq == Sum(queue) && Bag(root.value) == Bags(queue)
  {
    var nodes, mergedNodes := queue, [];
    root := None;
    while |nodes| + |mergedNodes| > 1
      invariant Run(nodes, mergedNodes, root) == Run(queue, [], None)
      decreases |nodes| + |mergedNodes|
    {
      ghost var (nodes0, merged0, root0) := (nodes, mergedNodes, root);
      var left, right;
      if mergedNodes == [] || (nodes != [] && Lighter(nodes[0], mergedNodes[0])) {
        left, nodes := nodes[0], nodes[1..];
      } else {
        left, mergedNodes := mergedNodes[0], mergedNodes[1..];
      }
      assert (left, nodes, mergedNodes) == Pop(nodes0, merged0);
      ghost var (nodes1, merged1) := (nodes, mergedNodes);
      if mergedNodes == [] || (nodes != [] && Lighter(nodes[0], mergedNodes[0])) {
        right, nodes := nodes[0], nodes[1..];
      } else {
        right, mergedNodes := mergedNodes[0], mergedNodes[1..];
      }
      assert (right, nodes, mergedNodes) == Pop(nodes1, merged1);
      ghost var (left0, right0) := (left, right);
      left := left.(huff := "0");
      right := right.(huff := "1");
      var newNode := Node(left.freq + right.freq, left, right, "");
      Joined(left0, right0, left, right);
      mergedNodes := mergedNodes + [newNode];
      root := Some(newNode);
      RunStep(nodes0, merged0, root0, nodes, mergedNodes);
    }
    if Leaves(queue) {
      Built(queue);
    }
  }

  /** The node lines 103-109 make from left and right is their Join. */
  lemma Joined(left: TreeNode, right: TreeNode, left': TreeNode, right': TreeNode)
    requires left' == left.(huff := "0") && right' == right.(huff := "1")
    ensures Node(left'.freq + right'.freq, left', right', "") == Join(left, right)
  {
  }

  /** decode (lines 122-131), writing into huffmanCodes: the entries Codes describes, added
      to those already there. */
  method Decode(node: TreeNode, huffmanCodes: map<nat, string>, val: string) returns (codes: map<nat, string>)
    ensures codes == huffmanCodes + Codes(node, val)
    decreases node
  {
    var code := val + node.huff;
    codes := huffmanCodes;
    if node.Node? {
      codes := Decode(node.left, codes, code);
      codes := Decode(node.right, codes, code);
      assert codes == huffmanCodes + (Codes(node.left, code) + Codes(node.right, code));
    } else {
      codes := codes[node.symbol := code];
    }
  }

  /** The code table the loop and decode make from a queue, empty when no tree is made. */
  function CodeTable(queue: seq<TreeNode>): map<nat, string>
  {
    match Run(queue, [], None)
    case None => map[]
    case Some(t) => Codes(t, "")
  }

  /** No code is a prefix of another. */
  ghost predicate PrefixCode(codes: map<nat, string>)
  {
    forall c, d :: c in codes && d in codes && c != d ==> !(codes[c] <= codes[d])
  }

  /** From a queue of two leaves or more, every leaf gets a code, its code is as long as
      the leaf is deep, and the code is a prefix code. */
  lemma TableOf(queue: seq<TreeNode>)
    requires Leaves(queue) && |queue| >= 2
    ensures Run(queue, [], None).Some? && var t := Run(queue, [], None).value; var codes := CodeTable(queue);
      && (forall c :: c in codes <==> c in Bags(queue))
      && (forall c :: c in codes ==> |codes[c]| == Depth(t, c))
      && PrefixCode(codes)
  {
    Built(queue);
    var t := Run(queue, [], None).value;
    CodesKeys(t, "");
    forall c | c in Codes(t, "") ensures |Codes(t, "")[c]| == Depth(t, c) {
      CodeLength(t, c);
    }
    forall c, d | c in Codes(t, "") && d in Codes(t, "") && c != d ensures !(Codes(t, "")[c] <= Codes(t, "")[d]) {
      PrefixFree(t, "", c, d);
    }
  }

  /** solve (lines 82-120): the tree, then the codes, then the code lengths of the two
      noted symbols, "max length" first. */
  method Solve(nodes: seq<TreeNode>, minFreqChar: Option<nat>, maxFreqChar: Option<nat>)
    returns (r: Result<(map<nat, string>, nat, nat), Error>)
    requires Leaves(nodes)
    ensures |nodes| < 2 <==> r == Failure(AttributeError)
    ensures |nodes| >= 2 && r.Failure? ==>
      r.error == KeyError(if minFreqChar.Some? && minFreqChar.value in CodeTable(nodes) then maxFreqChar else minFreqChar)
    ensures |nodes| >= 2 ==> (r.Success? <==> Noted(minFreqChar, CodeTable(nodes)) && Noted(maxFreqChar, CodeTable(nodes)))
    ensures r.Success? ==> Answer(nodes, minFreqChar, maxFreqChar, r.value)
  {
    var mergedRoot := BuildTree(nodes);
    if mergedRoot.None? {
      return Failure(AttributeError);
    }
    var root := mergedRoot.value;
    var huffmanCodes := Decode(root, map[], "");
    Decoded(nodes, root, huffmanCodes);
    if minFreqChar.None? || minFreqChar.value !in huffmanCodes {
      return Failure(KeyError(minFreqChar));
    }
    if maxFreqChar.None? || maxFreqChar.value !in huffmanCodes {
      return Failure(KeyError(maxFreqChar));
    }
    r := Success((huffmanCodes, |huffmanCodes[minFreqChar.value]|, |huffmanCodes[maxFreqChar.value]|));
    Answered(nodes, minFreqChar, maxFreqChar);
  }

  /** decode from the root of the tree, into an empty table, gives the code table. */
  lemma Decoded(nodes: seq<TreeNode>, root: TreeNode, codes: map<nat, string>)
    requires Run(nodes, [], None) == Some(root) && codes == map[] + Codes(root, "")
    ensures codes == CodeTable(nodes)
  {
    assert map[] + Codes(root, "") == Codes(root, "");
  }

  /** With both noted symbols in the code table, the table and their code lengths are the
      answer. */
  lemma Answered(nodes: seq<TreeNode>, minFreqChar: Option<nat>, maxFreqChar: Option<nat>)
    requires Leaves(nodes) && |nodes| >= 2
    requires Noted(minFreqChar, CodeTable(nodes)) && Noted(maxFreqChar, CodeTable(nodes))
    ensures var codes := CodeTable(nodes);
      Answer(nodes, minFreqChar, maxFreqChar, (codes, |codes[minFreqChar.value]|, |codes[maxFreqChar.value]|))
  {
    TableOf(nodes);
  }

  /** The noted symbol has a code. */
  predicate Noted(symbol: Option<nat>, codes: map<nat, string>)
  {
    symbol.Some? && symbol.value in codes
  }

  /** What solve prints: the code table of the queue, a prefix code with an entry for each
      leaf, and the code lengths of the two noted symbols. */
  ghost predicate Answer(nodes: seq<TreeNode>, minFreqChar: Option<nat>, maxFreqChar: Option<nat>, answer: (map<nat, string>, nat, nat))
  {
    var (codes, maxLength, minLength) := answer;
    && codes == CodeTable(nodes) && PrefixCode(codes)
    && (forall c :: c in codes <==> c in Bags(nodes))
    && minFreqChar.Some? && minFreqChar.value in codes && maxFreqChar.Some? && maxFreqChar.value in codes
    && maxLength == |codes[minFreqChar.value]| && minLength == |codes[maxFreqChar.value]|
  }

  // The whole program

  /** Symbol c comes before symbol d in the sorted queue. */
  predicate Ahead(weights: seq<int>, c: nat, d: nat)
    requires 1 <= c <= |weights| && 1 <= d <= |weights|
  {
    weights[c - 1] < weights[d - 1] || (weights[c - 1] == weights[d - 1] && c < d)
  }

  /** The symbols of the leaves in the queue are exactly 1 to n. */
  lemma QueueSymbols(weights: seq<int>, c: nat)
    ensures c in Bags(SortByFreq(LeavesOf(weights))) <==> 1 <= c <= |weights|
  {
    var q := SortByFreq(LeavesOf(weights));
    SortedLeaves(weights);
    FindIn(q, c);
    if c in Bags(q) {
      var t := q[Find(q, c)];
      assert t in multiset(q);
      var k := Member(LeavesOf(weights), t);
    }
    if 1 <= c <= |weights| {
      assert LeavesOf(weights)[c - 1] in multiset(q);
      var i := Member(q, LeavesOf(weights)[c - 1]);
      FindLeaf(q, i);
    }
  }

  /** The symbols with a code are exactly 1 to n. */
  /** The code table the program builds for the weights read from the file. */
  function Table(weights: seq<int>): map<nat, string>
  {
    CodeTable(SortByFreq(LeavesOf(weights)))
  }

  lemma TableKeys(weights: seq<int>)
    requires |weights| >= 2
    ensures forall c :: c in Table(weights) <==> 1 <= c <= |weights|
  {
    var q := SortByFreq(LeavesOf(weights));
    forall c: nat ensures c in Bags(q) <==> 1 <= c <= |weights| {
      QueueSymbols(weights, c);
    }
    SortedLeaves(weights);
    TableOf(q);
  }

  /** In an ordered queue a node comes before every node it is lighter than. */
  lemma Precedes(q: seq<TreeNode>, i: nat, j: nat)
    requires Ordered(q) && i < |q| && j < |q| && Earlier(q[i], q[j])
    ensures i < j
  {
  }

  /** A symbol ahead of another in the sorted queue gets a code at least as long. */
  lemma Ranked(weights: seq<int>, c: nat, d: nat)
    requires |weights| >= 2 && 1 <= c <= |weights| && 1 <= d <= |weights| && Ahead(weights, c, d)
    ensures c in Table(weights) && d in Table(weights) && |Table(weights)[c]| >= |Table(weights)[d]|
  {
    var q := SortByFreq(LeavesOf(weights));
    SortedLeaves(weights);
    var lc, ld := LeavesOf(weights)[c - 1], LeavesOf(weights)[d - 1];
    assert lc in multiset(q) && ld in multiset(q);
    var ic := Member(q, lc);
    var id := Member(q, ld);
    Precedes(q, ic, id);
    LongerCode(q, ic, id);
  }

  /** Of two leaves of a queue, the one nearer the front gets a code at least as long. */
  lemma LongerCode(q: seq<TreeNode>, i: nat, j: nat)
    requires Leaves(q) && i < j < |q|
    ensures q[i].symbol in CodeTable(q) && q[j].symbol in CodeTable(q)
    ensures |CodeTable(q)[q[i].symbol]| >= |CodeTable(q)[q[j].symbol]|
  {
    TableOf(q);
    FindLeaf(q, i);
    FindLeaf(q, j);
    FindIn(q, q[i].symbol);
    FindIn(q, q[j].symbol);
    Deeper(q, i, j);
  }

  /** The heavier of two symbols never gets the longer code. */
  lemma ByWeight(weights: seq<int>)
    requires |weights| >= 2
    ensures forall c: nat, d: nat ::
      1 <= c <= |weights| && 1 <= d <= |weights| && c in Table(weights) && d in Table(weights) && weights[c - 1] < weights[d - 1]
      ==> |Table(weights)[c]| >= |Table(weights)[d]|
  {
    forall c: nat, d: nat | 1 <= c <= |weights| && 1 <= d <= |weights| && c in Table(weights) && d in Table(weights) &&
      weights[c - 1] < weights[d - 1]
      ensures |Table(weights)[c]| >= |Table(weights)[d]|
    {
      Ranked(weights, c, d);
    }
  }

  /** The first symbol of least weight gets a longest code. */
  lemma LeastLongest(weights: seq<int>)
    requires |weights| >= 2
    ensures forall s: nat, c: nat :: FirstLeast(weights, |weights|, s) && 1 <= c <= |weights| && c in Table(weights) ==>
      s in Table(weights) && |Table(weights)[c]| <= |Table(weights)[s]|
  {
    forall s: nat, c: nat | FirstLeast(weights, |weights|, s) && 1 <= c <= |weights| && c in Table(weights)
      ensures s in Table(weights) && |Table(weights)[c]| <= |Table(weights)[s]|
    {
      LongestPair(weights, s, c);
    }
  }

  /** The first symbol s of least weight against one other symbol c. */
  lemma LongestPair(weights: seq<int>, s: nat, c: nat)
    requires |weights| >= 2 && FirstLeast(weights, |weights|, s) && 1 <= c <= |weights|
    ensures s in Table(weights) && c in Table(weights) && |Table(weights)[c]| <= |Table(weights)[s]|
  {
    if c != s {
      assert weights[s - 1] <= weights[c - 1];
      assert c < s ==> weights[s - 1] < weights[c - 1];
      Ranked(weights, s, c);
    } else {
      TableKeys(weights);
    }
  }

  /** The last symbol of greatest weight gets a shortest code. */
  lemma GreatestShortest(weights: seq<int>)
    requires |weights| >= 2
    ensures forall s: nat, c: nat :: LastGreatest(weights, |weights|, s) && 1 <= c <= |weights| && c in Table(weights) ==>
      s in Table(weights) && |Table(weights)[s]| <= |Table(weights)[c]|
  {
    forall s: nat, c: nat | LastGreatest(weights, |weights|, s) && 1 <= c <= |weights| && c in Table(weights)
      ensures s in Table(weights) && |Table(weights)[s]| <= |Table(weights)[c]|
    {
      ShortestPair(weights, s, c);
    }
  }

  /** The last symbol s of greatest weight against one other symbol c. */
  lemma ShortestPair(weights: seq<int>, s: nat, c: nat)
    requires |weights| >= 2 && LastGreatest(weights, |weights|, s) && 1 <= c <= |weights|
    ensures s in Table(weights) && c in Table(weights) && |Table(weights)[s]| <= |Table(weights)[c]|
  {
    if c != s {
      assert weights[c - 1] <= weights[s - 1];
      assert c > s ==> weights[c - 1] < weights[s - 1];
      Ranked(weights, c, s);
    } else {
      TableKeys(weights);
    }
  }

  /** The properties both versions share: failure exactly for fewer than two symbols, and
      otherwise a prefix code for the symbols 1 to n in which the heavier symbol never has
      the longer code, and "max length" is the longest code length, that of the first
      symbol of least weight. */
  ghost predicate Coded(weights: seq<int>, r: Result<(map<nat, string>, nat, nat), Error>)
  {
    && (r.Failure? <==> |weights| < 2)
    && (r.Failure? ==> r.error == AttributeError)
    && (r.Success? ==> var (codes, maxLength, minLength) := r.value;
      && codes == Table(weights)
      && (forall c :: c in codes <==> 1 <= c <= |weights|)
      && PrefixCode(codes)
      && (forall c, d :: c in codes && d in codes && weights[c - 1] < weights[d - 1] ==> |codes[c]| >= |codes[d]|)
      && (forall c :: c in codes ==> |codes[c]| <= maxLength)
      && (forall s :: FirstLeast(weights, |weights|, s) ==> s in codes && maxLength == |codes[s]|))
  }

  /** The program as written (lines 40-120): Coded, and "min length" is the code length of
      the first symbol of greatest weight. */
  method Huffman(weights: seq<int>) returns (r: Result<(map<nat, string>, nat, nat), Error>)
    ensures Coded(weights, r)
    ensures r.Success? ==> forall s :: FirstGreatest(weights, |weights|, s) ==> s in r.value.0 && r.value.2 == |r.value.0[s]|
  {
    var nodes, minFreqChar, maxFreqChar := Read(weights);
    var queue := SortByFreq(nodes);
    SortedLeaves(weights);
    r := Solve(queue, minFreqChar, maxFreqChar);
    if |weights| >= 2 {
      Shared(weights, minFreqChar, maxFreqChar, r);
      OnlyOne(weights);
    }
  }

  /** Huffman with ReadFixed: Coded, and "min length" is the shortest code length, that of
      the last symbol of greatest weight. */
  method HuffmanFixed(weights: seq<int>) returns (r: Result<(map<nat, string>, nat, nat), Error>)
    ensures Coded(weights, r)
    ensures r.Success? ==> forall c :: c in r.value.0 ==> r.value.2 <= |r.value.0[c]|
    ensures r.Success? ==> forall s :: LastGreatest(weights, |weights|, s) ==> s in r.value.0 && r.value.2 == |r.value.0[s]|
  {
    var nodes, minFreqChar, maxFreqChar := ReadFixed(weights);
    var queue := SortByFreq(nodes);
    SortedLeaves(weights);
    r := Solve(queue, minFreqChar, maxFreqChar);
    if |weights| >= 2 {
      Shared(weights, minFreqChar, maxFreqChar, r);
      OnlyOne(weights);
      ByWeight(weights);
      LeastLongest(weights);
      GreatestShortest(weights);
    }
  }

  /** solve on the sorted leaves, with the first symbol of least weight noted, is Coded. */
  lemma Shared(weights: seq<int>, minFreqChar: Option<nat>, maxFreqChar: Option<nat>, r: Result<(map<nat, string>, nat, nat), Error>)
    requires |weights| >= 2 && minFreqChar.Some? && FirstLeast(weights, |weights|, minFreqChar.value)
    requires maxFreqChar.Some? && 1 <= maxFreqChar.value <= |weights|
    requires (r.Failure? ==> r.error == KeyError(if minFreqChar.Some? && minFreqChar.value in Table(weights) then maxFreqChar else minFreqChar))
    requires (r.Success? <==> Noted(minFreqChar, Table(weights)) && Noted(maxFreqChar, Table(weights)))
    requires r.Success? ==> Answer(SortByFreq(LeavesOf(weights)), minFreqChar, maxFreqChar, r.value)
    ensures Coded(weights, r)
  {
    TableKeys(weights);
    ByWeight(weights);
    LeastLongest(weights);
    GreatestShortest(weights);
    OnlyOne(weights);
  }

  /** Each of the three notes names one symbol only. */
  lemma OnlyOne(weights: seq<int>)
    ensures forall s, t :: FirstLeast(weights, |weights|, s) && FirstLeast(weights, |weights|, t) ==> s == t
    ensures forall s, t :: FirstGreatest(weights, |weights|, s) && FirstGreatest(weights, |weights|, t) ==> s == t
    ensures forall s, t :: LastGreatest(weights, |weights|, s) && LastGreatest(weights, |weights|, t) ==> s == t
  {
    var n := |weights|;
    forall s, t | FirstLeast(weights, n, s) && FirstLeast(weights, n, t) ensures s == t {
      assert weights[s - 1] == weights[t - 1];
    }
    forall s, t | FirstGreatest(weights, n, s) && FirstGreatest(weights, n, t) ensures s == t {
      assert weights[s - 1] == weights[t - 1];
    }
    forall s, t | LastGreatest(weights, n, s) && LastGreatest(weights, n, t) ensures s == t {
      assert weights[s - 1] == weights[t - 1];
    }
  }

  /** With weights 1, 1, 1 the program as written reports 2 as the minimum code length,
      the length of the code of symbol 1, the first of greatest weight; symbol 3 has a code
      of length 1. */
  lemma MinLengthMisreported()
    ensures var weights := [1, 1, 1];
      && (forall s :: FirstGreatest(weights, 3, s) <==> s == 1)
      && (forall s :: LastGreatest(weights, 3, s) <==> s == 3)
      && Table(weights) == map[1 := "10", 2 := "11", 3 := "0"]
  {
    var l1, l2, l3 := Leaf(1, 1, ""), Leaf(1, 2, ""), Leaf(1, 3, "");
    NotesOfThree();
    assert LeavesOf([1, 1, 1]) == [l1, l2, l3];
    SortThree(l1, l2, l3);
    RunThree(l1, l2, l3);
    CodesThree(l1, l2, l3);
  }

  lemma NotesOfThree()
    ensures forall s :: FirstGreatest([1, 1, 1], 3, s) <==> s == 1
    ensures forall s :: LastGreatest([1, 1, 1], 3, s) <==> s == 3
  {
    var w := [1, 1, 1];
    forall s ensures FirstGreatest(w, 3, s) <==> s == 1 {
      assert w[0] == 1 && w[1] == 1 && w[2] == 1;
    }
    forall s ensures LastGreatest(w, 3, s) <==> s == 3 {
      assert w[0] == 1 && w[1] == 1 && w[2] == 1;
    }
  }

  lemma SortThree(l1: TreeNode, l2: TreeNode, l3: TreeNode)
    requires Earlier(l1, l2) && Earlier(l2, l3)
    ensures SortByFreq([l1, l2, l3]) == [l1, l2, l3]
  {
    SortTwo(l2, l3);
    assert [l1, l2, l3][1..] == [l2, l3];
    SortStep([l1, l2, l3], [l2, l3]);
    InsertFirst(l1, [l2, l3]);
  }

  lemma SortTwo(l1: TreeNode, l2: TreeNode)
    requires Earlier(l1, l2)
    ensures SortByFreq([l1, l2]) == [l1, l2]
  {
    assert SortByFreq([l2]) == [l2] by {
      assert [l2][1..] == [];
      SortStep([l2], []);
      InsertFirst(l2, []);
      assert [l2] + [] == [l2];
    }
    assert [l1, l2][1..] == [l2];
    SortStep([l1, l2], [l2]);
    InsertFirst(l1, [l2]);
  }

  /** One step of the sort: the front node inserted into the sorted rest. */
  lemma SortStep(q: seq<TreeNode>, r: seq<TreeNode>)
    requires q != [] && SortByFreq(q[1..]) == r
    ensures SortByFreq(q) == Insert(q[0], r)
  {
  }

  /** A node that comes before the front of q goes in front. */
  lemma InsertFirst(t: TreeNode, q: seq<TreeNode>)
    requires q == [] || Earlier(t, q[0])
    ensures Insert(t, q) == [t] + q
  {
  }

  lemma RunThree(l1: TreeNode, l2: TreeNode, l3: TreeNode)
    requires l1 == Leaf(1, 1, "") && l2 == Leaf(1, 2, "") && l3 == Leaf(1, 3, "")
    ensures Run([l1, l2, l3], [], None) == Some(Join(l3, Join(l1, l2)))
  {
    var n2 := Join(l1, l2);
    var n3 := Join(l3, n2);
    assert [l1, l2, l3][1..] == [l2, l3] && [l2, l3][1..] == [l3];
    assert Pop([l1, l2, l3], []) == (l1, [l2, l3], []);
    assert Pop([l2, l3], []) == (l2, [l3], []);
    assert Take2([l1, l2, l3], []) == (l1, l2, [l3], []);
    assert [] + [n2] == [n2];
    assert Merge([l1, l2, l3], []) == ([l3], [n2]);
    assert [l3][1..] == [] && [n2][1..] == [];
    assert Pop([l3], [n2]) == (l3, [], [n2]);
    assert Pop([], [n2]) == (n2, [], []);
    assert Take2([l3], [n2]) == (l3, n2, [], []);
    assert [] + [n3] == [n3];
    assert Merge([l3], [n2]) == ([], [n3]);
    assert Run([], [n3], Some(n3)) == Some(n3);
    assert Run([l3], [n2], Some(n2)) == Some(n3);
  }

  lemma CodesThree(l1: TreeNode, l2: TreeNode, l3: TreeNode)
    requires l1 == Leaf(1, 1, "") && l2 == Leaf(1, 2, "") && l3 == Leaf(1, 3, "")
    ensures Codes(Join(l3, Join(l1, l2)), "") == map[1 := "10", 2 := "11", 3 := "0"]
  {
    var n2 := Node(2, Leaf(1, 1, "0"), Leaf(1, 2, "1"), "1");
    assert Join(l3, Join(l1, l2)) == Node(3, Leaf(1, 3, "0"), n2, "");
    assert Codes(Leaf(1, 1, "0"), "1") == map[1 := "10"] by {
      assert "1" + "0" == "10";
    }
    assert Codes(Leaf(1, 2, "1"), "1") == map[2 := "11"] by {
      assert "1" + "1" == "11";
    }
    assert Codes(n2, "") == map[1 := "10"] + map[2 := "11"] by {
      assert "" + "1" == "1";
    }
    assert Codes(Leaf(1, 3, "0"), "") == map[3 := "0"] by {
      assert "" + "0" == "0";
    }
    assert "" + "" == "";
  }
}
