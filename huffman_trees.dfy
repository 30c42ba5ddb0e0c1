/** The trees huffmanCode.py builds and the codes decode reads off them: each leaf's code
    is the string of digits on the path from the root, as long as the leaf is deep, and
    no code is a prefix of another. */
module HuffmanTrees {
  /** A TreeNode: a leaf for a symbol (its char), or the node that merged left and right.
      huff is the digit the parent wrote into the node when it was merged, "0" for the
      left child and "1" for the right one; a node not merged keeps "". The char of a
      merged node, the concatenation of its children's, is never read and is left out. */
  datatype TreeNode =
    | Leaf(freq: int, symbol: nat, huff: string)
    | Node(freq: int, left: TreeNode, right: TreeNode, huff: string)

  /** The symbols at the leaves of t. */
  function Bag(t: TreeNode): multiset<nat>
  {
    match t
    case Leaf(_, c, _) => multiset{c}
    case Node(_, l, r, _) => Bag(l) + Bag(r)
  }

  /** No symbol labels two leaves. */
  ghost predicate Distinct(t: TreeNode)
  {
    forall c :: Bag(t)[c] <= 1
  }

  /** The depth of the leaf c below t. */
  function Depth(t: TreeNode, c: nat): nat
  {
    match t
    case Leaf(_, _, _) => 0
    case Node(_, l, r, _) => 1 + if c in Bag(l) then Depth(l, c) else Depth(r, c)
  }

  /** Every merged node below t gave its left child the digit "0" and its right child
      "1". */
  predicate Labelled(t: TreeNode)
  {
    match t
    case Leaf(_, _, _) => true
    case Node(_, l, r, _) => l.huff == "0" && r.huff == "1" && Labelled(l) && Labelled(r)
  }

  /** The entries decode(t, huffmanCodes, val) writes (lines 122-131): the code of a node
      is val followed by its huff; a leaf stores its code under its symbol, a merged node
      passes its code to the left child and then to the right one, whose entries come
      later and win. */
  function Codes(t: TreeNode, val: string): map<nat, string>
  {
    var code := val + t.huff;
    match t
    case Leaf(_, c, _) => map[c := code]
    case Node(_, l, r, _) => Codes(l, code) + Codes(r, code)
  }

  /** Writing another digit into huff changes neither the leaves nor their depths nor the
      digits below. */
  lemma Relabelled(t: TreeNode, h: string)
    ensures Bag(t.(huff := h)) == Bag(t) && Labelled(t.(huff := h)) == Labelled(t)
    ensures forall c :: Depth(t.(huff := h), c) == Depth(t, c)
  {
  }

  /** decode writes an entry for every leaf and for nothing else. */
  lemma {:induction false} CodesKeys(t: TreeNode, val: string)
    ensures forall c :: c in Codes(t, val) <==> c in Bag(t)
  {
    if t.Node? {
      CodesKeys(t.left, val + t.huff);
      CodesKeys(t.right, val + t.huff);
    }
  }

  /** The leaves of a tree with distinct leaves split between its two children. */
  lemma Split(t: TreeNode)
    requires t.Node? && Distinct(t)
    ensures Distinct(t.left) && Distinct(t.right)
    ensures forall c :: c in Bag(t.left) ==> c !in Bag(t.right)
  {
    forall c ensures Bag(t.left)[c] <= 1 && Bag(t.right)[c] <= 1 {
      assert Bag(t)[c] == Bag(t.left)[c] + Bag(t.right)[c];
    }
    forall c | c in Bag(t.left) ensures c !in Bag(t.right) {
      assert Bag(t)[c] == Bag(t.left)[c] + Bag(t.right)[c];
    }
  }

  /** In a labelled tree with distinct leaves, the code of the leaf c starts with val and
      the node's own huff, and it is longer than they are by exactly the depth of c. */
  lemma {:induction false} CodeOf(t: TreeNode, val: string, c: nat)
    requires Labelled(t) && Distinct(t) && c in Bag(t)
    ensures c in Codes(t, val)
    ensures val + t.huff <= Codes(t, val)[c]
    ensures |Codes(t, val)[c]| == |val| + |t.huff| + Depth(t, c)
  {
    CodesKeys(t, val);
    if t.Node? {
      var code := val + t.huff;
      Split(t);
      CodesKeys(t.left, code);
      CodesKeys(t.right, code);
      if c in Bag(t.left) {
        CodeOf(t.left, code, c);
        assert Codes(t, val)[c] == Codes(t.left, code)[c];
      } else {
        CodeOf(t.right, code, c);
      }
    }
  }

  /** Two strings that differ at an index both reach: neither is a prefix of the other. */
  lemma Diverge(a: string, b: string, k: nat)
    requires k < |a| && k < |b| && a[k] != b[k]
    ensures !(a <= b)
  {
  }

  /** The codes of a leaf e of x and a leaf f of y, the children of a merged node whose code
      is code, part at index |code|: one continues with "0", the other with "1". */
  lemma Across(x: TreeNode, y: TreeNode, code: string, e: nat, f: nat)
    requires Labelled(x) && Distinct(x) && e in Bag(x) && Labelled(y) && Distinct(y) && f in Bag(y)
    requires |x.huff| == 1 && |y.huff| == 1 && x.huff != y.huff
    ensures e in Codes(x, code) && f in Codes(y, code)
    ensures !(Codes(x, code)[e] <= Codes(y, code)[f])
  {
    CodeOf(x, code, e);
    CodeOf(y, code, f);
    var k := |code|;
    assert Codes(x, code)[e][k] == (code + x.huff)[k] == x.huff[0];
    assert Codes(y, code)[f][k] == (code + y.huff)[k] == y.huff[0];
    Diverge(Codes(x, code)[e], Codes(y, code)[f], k);
  }

  /** decode gives a prefix code: in a labelled tree with distinct leaves, the code of one
      leaf is never a prefix of the code of another. */
  lemma {:induction false} PrefixFree(t: TreeNode, val: string, c: nat, d: nat)
    requires Labelled(t) && Distinct(t) && c in Bag(t) && d in Bag(t) && c != d
    ensures c in Codes(t, val) && d in Codes(t, val)
    ensures !(Codes(t, val)[c] <= Codes(t, val)[d])
  {
    match t
    case Leaf(_, _, _) =>
      assert false;
    case Node(_, l, r, _) =>
      var code := val + t.huff;
      Split(t);
      CodesKeys(l, code);
      CodesKeys(r, code);
      assert Codes(t, val) == Codes(l, code) + Codes(r, code);
      if c in Bag(l) && d in Bag(l) {
        PrefixFree(l, code, c, d);
      } else if c in Bag(r) && d in Bag(r) {
        PrefixFree(r, code, c, d);
      } else if c in Bag(l) {
        Across(l, r, code, c, d);
      } else {
        Across(r, l, code, c, d);
      }
  }

  /** The leaf c is as deep as its code is long: a tree built from nodes with huff ""
      gives every leaf a code of length equal to its depth. */
  lemma CodeLength(t: TreeNode, c: nat)
    requires Labelled(t) && Distinct(t) && t.huff == "" && c in Bag(t)
    ensures c in Codes(t, "") && |Codes(t, "")[c]| == Depth(t, c)
  {
    CodeOf(t, "", c);
  }
}
