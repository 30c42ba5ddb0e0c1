/** The neighbour lists of kClustersHammingDistance.py: the values at Hamming distance 1
    and 2 that dist_1 and dist_2 generate, the index lists that the scans over the data
    build in their dictionaries, and the pairs of indices the three distance_*_items
    methods append. */
module HammingNeighbours {
  import opened Bits
  import opened Components

  /** A read of a defaultdict(list): the list under v, empty when v is absent. */
  function Entry(m: map<nat, seq<nat>>, v: nat): seq<nat>
  {
    if v in m then m[v] else []
  }

  /** m[k].append(i) on a defaultdict(list). */
  function Append(m: map<nat, seq<nat>>, k: nat, i: nat): map<nat, seq<nat>>
  {
    m[k := Entry(m, k) + [i]]
  }

  /** The append adds i at the end of the list under k and touches no other list. */
  lemma AppendEntries(m: map<nat, seq<nat>>, k: nat, i: nat)
    ensures forall v :: v in Append(m, k, i) <==> v in m || v == k
    ensures forall v :: Entry(Append(m, k, i), v) == Entry(m, v) + if v == k then [i] else []
  {
  }

  /** The values num ^ (1 << b) for the bits b below i. */
  ghost function Flips(num: nat, i: nat): set<nat>
  {
    if i == 0 then {} else Flips(num, i - 1) + {Xor(num, Pow2(i - 1))}
  }

  lemma {:induction false} FlipsMember(num: nat, i: nat, v: nat) returns (b: nat)
    requires v in Flips(num, i)
    ensures b < i && v == Xor(num, Pow2(b))
  {
    if v in Flips(num, i - 1) {
      b := FlipsMember(num, i - 1, v);
    } else {
      b := i - 1;
    }
  }

  lemma {:induction false} FlipIn(num: nat, b: nat, i: nat)
    requires b < i
    ensures Xor(num, Pow2(b)) in Flips(num, i)
  {
    if b < i - 1 {
      FlipIn(num, b, i - 1);
    }
  }

  /** The flip of bit i is not among the flips of the bits below i. */
  lemma FlipNew(num: nat, i: nat)
    ensures Xor(num, Pow2(i)) !in Flips(num, i)
  {
    FlipBit(num, i, i);
    forall v | v in Flips(num, i) ensures Bit(v, i) == Bit(num, i) {
      var b := FlipsMember(num, i, v);
      FlipBit(num, b, i);
    }
  }

  /** dist_1 over n bits generates exactly the n-bit values at distance 1. */
  lemma FlipsAreNear(num: nat, n: nat)
    requires num < Pow2(n)
    ensures forall v :: v in Flips(num, n) <==> Near(num, v, n, 1)
  {
    forall v ensures v in Flips(num, n) <==> Near(num, v, n, 1) {
      if v in Flips(num, n) {
        var b := FlipsMember(num, n, v);
        FlipOne(num, b, n);
      }
      if Near(num, v, n, 1) {
        var i := OneIsFlip(num, v, n);
        FlipIn(num, i, n);
      }
    }
  }

  /** num ^ (1 << a) ^ (1 << b). */
  function Two(num: nat, a: nat, b: nat): nat
  {
    Xor(Xor(num, Pow2(a)), Pow2(b))
  }

  /** The values of the inner loop of dist_2 for the outer bit a, up to bit j. */
  ghost function Row(num: nat, a: nat, j: nat): set<nat>
  {
    if j <= a + 1 then {} else Row(num, a, j - 1) + {Two(num, a, j - 1)}
  }

  /** The values of dist_2 once the outer bits below i are done. */
  ghost function Flips2(num: nat, n: nat, i: nat): set<nat>
  {
    if i == 0 then {} else Flips2(num, n, i - 1) + Row(num, i - 1, n)
  }

  /** The number of passes of the outer loop of dist_2, range(0, bits - 1). */
  function Outer(n: nat): nat
  {
    if n == 0 then 0 else n - 1
  }

  lemma {:induction false} RowMember(num: nat, a: nat, j: nat, v: nat) returns (b: nat)
    requires v in Row(num, a, j)
    ensures a < b < j && v == Two(num, a, b)
  {
    if v in Row(num, a, j - 1) {
      b := RowMember(num, a, j - 1, v);
    } else {
      b := j - 1;
    }
  }

  lemma {:induction false} RowIn(num: nat, a: nat, b: nat, j: nat)
    requires a < b < j
    ensures Two(num, a, b) in Row(num, a, j)
  {
    if b < j - 1 {
      RowIn(num, a, b, j - 1);
    }
  }

  lemma {:induction false} Flips2Member(num: nat, n: nat, i: nat, v: nat) returns (a: nat, b: nat)
    requires v in Flips2(num, n, i)
    ensures a < i && a < b < n && v == Two(num, a, b)
  {
    if v in Flips2(num, n, i - 1) {
      a, b := Flips2Member(num, n, i - 1, v);
    } else {
      a := i - 1;
      b := RowMember(num, a, n, v);
    }
  }

  lemma {:induction false} Flips2In(num: nat, n: nat, a: nat, b: nat, i: nat)
    requires a < i && a < b < n
    ensures Two(num, a, b) in Flips2(num, n, i)
  {
    if a < i - 1 {
      Flips2In(num, n, a, b, i - 1);
    } else {
      RowIn(num, a, b, n);
    }
  }

  /** The inner loop of dist_2 meets each value once. */
  lemma RowNew(num: nat, a: nat, j: nat)
    requires a < j
    ensures Two(num, a, j) !in Row(num, a, j)
  {
    FlipTwoBits(num, a, j, j);
    forall v | v in Row(num, a, j) ensures Bit(v, j) == Bit(num, j) {
      var b := RowMember(num, a, j, v);
      FlipTwoBits(num, a, b, j);
    }
  }

  /** The values of the pass for the outer bit i keep the bits below i. */
  lemma RowKeepsLow(num: nat, i: nat, n: nat, v: nat, a: nat)
    requires a < i
    ensures v in Row(num, i, n) ==> Bit(v, a) == Bit(num, a)
  {
    if v in Row(num, i, n) {
      var b := RowMember(num, i, n, v);
      FlipTwoBits(num, i, b, a);
    }
  }

  /** The values of the passes below i each change a bit below i. */
  lemma Flips2ChangeLow(num: nat, n: nat, i: nat, w: nat) returns (a: nat)
    requires w in Flips2(num, n, i)
    ensures a < i && Bit(w, a) != Bit(num, a)
  {
    var b: nat;
    a, b := Flips2Member(num, n, i, w);
    FlipTwoBits(num, a, b, a);
  }

  /** The pass for the outer bit i meets none of the values of the earlier passes. */
  lemma RowApart(num: nat, n: nat, i: nat)
    ensures Row(num, i, n) !! Flips2(num, n, i)
  {
    forall w | w in Flips2(num, n, i) ensures w !in Row(num, i, n) {
      var a := Flips2ChangeLow(num, n, i, w);
      RowKeepsLow(num, i, n, w, a);
    }
  }

  /** After the pass for the outer bit i, index sits once under each value of the passes
      up to i. */
  lemma Flips2Next(num: nat, n: nat, i: nat, index: nat,
                   pairs: map<nat, seq<nat>>, p1: map<nat, seq<nat>>, p2: map<nat, seq<nat>>)
    requires forall v :: v in p1 <==> v in pairs || v in Flips2(num, n, i)
    requires forall v :: Entry(p1, v) == Entry(pairs, v) + if v in Flips2(num, n, i) then [index] else []
    requires forall v :: v in p2 <==> v in p1 || v in Row(num, i, n)
    requires forall v :: Entry(p2, v) == Entry(p1, v) + if v in Row(num, i, n) then [index] else []
    ensures forall v :: v in p2 <==> v in pairs || v in Flips2(num, n, i + 1)
    ensures forall v :: Entry(p2, v) == Entry(pairs, v) + if v in Flips2(num, n, i + 1) then [index] else []
  {
    RowApart(num, n, i);
    assert Flips2(num, n, i + 1) == Flips2(num, n, i) + Row(num, i, n);
    forall v ensures Entry(p2, v) == Entry(pairs, v) + if v in Flips2(num, n, i + 1) then [index] else [] {
      var e := Entry(pairs, v);
      if v in Row(num, i, n) {
        assert v !in Flips2(num, n, i);
        assert Entry(p1, v) == e + [];
      } else if v in Flips2(num, n, i) {
        assert Entry(p2, v) == Entry(p1, v) + [];
      } else {
        assert Entry(p2, v) == Entry(p1, v) + [] == e + [];
      }
    }
  }

  /** dist_2 over n bits generates exactly the n-bit values at distance 2. */
  lemma Flips2AreNear(num: nat, n: nat)
    requires num < Pow2(n)
    ensures forall v :: v in Flips2(num, n, Outer(n)) <==> Near(num, v, n, 2)
  {
    forall v ensures v in Flips2(num, n, Outer(n)) <==> Near(num, v, n, 2) {
      if v in Flips2(num, n, Outer(n)) {
        var a, b := Flips2Member(num, n, Outer(n), v);
        FlipTwo(num, a, b, n);
      }
      if Near(num, v, n, 2) {
        var i, j := TwoIsFlip(num, v, n);
        Flips2In(num, n, i, j, Outer(n));
      }
    }
  }

  /** The indices below i whose value is at distance d from v: the list under v in the
      dictionary dist1_keys (or dist2_keys) after i entries of the data. */
  ghost function NearIndices(data: seq<nat>, bits: nat, d: nat, v: nat, i: nat): seq<nat>
    requires i <= |data|
  {
    if i == 0 then []
    else NearIndices(data, bits, d, v, i - 1) + (if Near(data[i - 1], v, bits, d) then [i - 1] else [])
  }

  /** The indices below i with value v and an earlier index at distance d: the list
      under v in dist1_present (or dist2_present) after i entries of the data. */
  ghost function PresentIndices(data: seq<nat>, bits: nat, d: nat, v: nat, i: nat): seq<nat>
    requires i <= |data|
  {
    if i == 0 then []
    else
      PresentIndices(data, bits, d, v, i - 1)
      + (if data[i - 1] == v && NearIndices(data, bits, d, v, i - 1) != [] then [i - 1] else [])
  }

  /** The dictionaries of the scan after i entries of the data. */
  ghost predicate Scanned(data: seq<nat>, bits: nat, d: nat, present: map<nat, seq<nat>>,
                          keys: map<nat, seq<nat>>, i: nat)
    requires i <= |data|
  {
    && (forall v :: Entry(keys, v) == NearIndices(data, bits, d, v, i))
    && (forall v :: Entry(present, v) == PresentIndices(data, bits, d, v, i))
    && (forall v {:trigger Entry(keys, v)} :: v in keys ==> Entry(keys, v) != [])
  }

  /** Before the scan both dictionaries are empty. */
  lemma ScanStart(data: seq<nat>, bits: nat, d: nat)
    ensures Scanned(data, bits, d, map[], map[], 0)
  {
  }

  /** One entry of the scan: index i goes under every value near its label, and under
      its own label in present when an earlier index generated that label. */
  lemma ScanNext(data: seq<nat>, bits: nat, d: nat, present: map<nat, seq<nat>>, keys: map<nat, seq<nat>>,
                 present': map<nat, seq<nat>>, keys': map<nat, seq<nat>>, i: nat)
    requires i < |data| && Scanned(data, bits, d, present, keys, i)
    requires forall v :: Entry(keys', v) == Entry(keys, v) + if Near(data[i], v, bits, d) then [i] else []
    requires forall v {:trigger Entry(keys', v)} :: v in keys' ==> v in keys || Near(data[i], v, bits, d)
    requires forall v ::
      Entry(present', v) == Entry(present, v) + if v == data[i] && Entry(keys, v) != [] then [i] else []
    ensures Scanned(data, bits, d, present', keys', i + 1)
  {
    forall v ensures Entry(keys', v) == NearIndices(data, bits, d, v, i + 1) {
      assert Entry(keys, v) == NearIndices(data, bits, d, v, i);
    }
    forall v | v in keys' ensures Entry(keys', v) != [] {
      assert Entry(keys', v) == Entry(keys, v) + if Near(data[i], v, bits, d) then [i] else [];
    }
    forall v ensures Entry(present', v) == PresentIndices(data, bits, d, v, i + 1) {
      assert Entry(present, v) == PresentIndices(data, bits, d, v, i);
      assert Entry(keys, v) == NearIndices(data, bits, d, v, i);
    }
  }

  lemma {:induction false} NearIndicesMembers(data: seq<nat>, bits: nat, d: nat, v: nat, i: nat, j: nat)
    requires i <= |data|
    ensures j in NearIndices(data, bits, d, v, i) <==> j < i && Near(data[j], v, bits, d)
  {
    if i > 0 {
      NearIndicesMembers(data, bits, d, v, i - 1, j);
    }
  }

  lemma {:induction false} PresentSound(data: seq<nat>, bits: nat, d: nat, v: nat, i: nat, j: nat)
    requires i <= |data| && j in PresentIndices(data, bits, d, v, i)
    ensures j < i && data[j] == v
  {
    if j !in PresentIndices(data, bits, d, v, i - 1) {
      assert j == i - 1;
    } else {
      PresentSound(data, bits, d, v, i - 1, j);
    }
  }

  lemma {:induction false} PresentComplete(data: seq<nat>, bits: nat, d: nat, i: nat, a: nat, j: nat)
    requires i <= |data| && a < j < i && Near(data[a], data[j], bits, d)
    ensures j in PresentIndices(data, bits, d, data[j], i)
  {
    if j < i - 1 {
      PresentComplete(data, bits, d, i - 1, a, j);
    } else {
      NearIndicesMembers(data, bits, d, data[j], j, a);
    }
  }

  /** The indices below i with value v: the list under v in distance0. */
  ghost function Positions(data: seq<nat>, v: nat, i: nat): seq<nat>
    requires i <= |data|
  {
    if i == 0 then [] else Positions(data, v, i - 1) + (if data[i - 1] == v then [i - 1] else [])
  }

  ghost predicate Increasing(s: seq<nat>)
  {
    forall x, y :: 0 <= x < y < |s| ==> s[x] < s[y]
  }

  lemma {:induction false} PositionsMembers(data: seq<nat>, v: nat, i: nat)
    requires i <= |data|
    ensures Increasing(Positions(data, v, i))
    ensures forall j: nat :: j in Positions(data, v, i) <==> j < i && data[j] == v
  {
    if i > 0 {
      PositionsMembers(data, v, i - 1);
      var s := Positions(data, v, i - 1);
      forall x | 0 <= x < |s| ensures s[x] < i - 1 {
        assert s[x] in Positions(data, v, i - 1);
      }
    }
  }

  /** The pairs (d, c) for every c of cs, in order. */
  function RowPairs(d: nat, cs: seq<nat>): (r: seq<Pair>)
    ensures |r| == |cs| && forall k :: 0 <= k < |cs| ==> r[k] == Pair(d, cs[k])
  {
    seq(|cs|, k requires 0 <= k < |cs| => Pair(d, cs[k]))
  }

  lemma RowPairsMembers(d: nat, cs: seq<nat>, p: Pair)
    ensures p in RowPairs(d, cs) <==> p.a == d && p.b in cs
  {
    if p.a == d && p.b in cs {
      var k :| 0 <= k < |cs| && cs[k] == p.b;
      assert RowPairs(d, cs)[k] == p;
    }
  }

  /** itertools.combinations(lst, 2): the pairs of entries, the earlier one first. */
  function Combinations(lst: seq<nat>): seq<Pair>
  {
    if |lst| < 2 then [] else RowPairs(lst[0], lst[1..]) + Combinations(lst[1..])
  }

  /** The combinations of an increasing list are the pairs of its entries in order. */
  lemma {:induction false} CombinationsMembers(lst: seq<nat>, p: Pair)
    requires Increasing(lst)
    ensures p in Combinations(lst) <==> p.a in lst && p.b in lst && p.a < p.b
  {
    if |lst| >= 2 {
      CombinationsMembers(lst[1..], p);
      RowPairsMembers(lst[0], lst[1..], p);
      assert lst == [lst[0]] + lst[1..];
      if p.a in lst && p.b in lst && p.a < p.b && p.a == lst[0] {
        assert p.b != lst[0];
      }
      if p.a in lst && p.b in lst && p.a < p.b && p.a != lst[0] {
        assert p.b != lst[0];
      }
    } else if |lst| == 1 {
      assert lst == [lst[0]];
    }
  }

  /** The dictionary distance0 after i entries of the data. */
  ghost function Groups(data: seq<nat>, i: nat): map<nat, seq<nat>>
    requires i <= |data|
  {
    if i == 0 then map[] else Append(Groups(data, i - 1), data[i - 1], i - 1)
  }

  lemma {:induction false} GroupsArePositions(data: seq<nat>, i: nat, v: nat)
    requires i <= |data|
    ensures Entry(Groups(data, i), v) == Positions(data, v, i)
  {
    if i > 0 {
      GroupsArePositions(data, i - 1, v);
    }
  }

  /** The combinations of the indices of label k are the pairs of such indices in order. */
  lemma GroupPairs(data: seq<nat>, k: nat)
    ensures forall p :: p in Combinations(Positions(data, k, |data|)) <==>
      p.a < p.b < |data| && data[p.a] == k && data[p.b] == k
  {
    PositionsMembers(data, k, |data|);
    forall p ensures p in Combinations(Positions(data, k, |data|)) <==>
      p.a < p.b < |data| && data[p.a] == k && data[p.b] == k
    {
      CombinationsMembers(Positions(data, k, |data|), p);
    }
  }

  /** The pairs (d, c) for d of val and c of cs, val outermost. */
  function Product(val: seq<nat>, cs: seq<nat>): seq<Pair>
  {
    if val == [] then [] else Product(val[..|val| - 1], cs) + RowPairs(val[|val| - 1], cs)
  }

  lemma {:induction false} ProductMembers(val: seq<nat>, cs: seq<nat>, p: Pair)
    ensures p in Product(val, cs) <==> p.a in val && p.b in cs
  {
    if val != [] {
      ProductMembers(val[..|val| - 1], cs, p);
      RowPairsMembers(val[|val| - 1], cs, p);
      assert val == val[..|val| - 1] + [val[|val| - 1]];
    }
  }

  /** The pairs of indices whose labels are at most 2 apart. */
  ghost function NearPairs(data: seq<nat>, bits: nat): set<Pair>
  {
    set u, v | 0 <= u < |data| && 0 <= v < |data| && |Diff(data[u], data[v], bits)| <= 2 :: Pair(u, v)
  }

  /** Every label has the given number of bits. */
  ghost predicate Labels(data: seq<nat>, bits: nat)
  {
    forall k :: 0 <= k < |data| ==> data[k] < Pow2(bits)
  }

  /** Appended pairs that are sound and complete for the distances 0, 1 and 2 link the
      same nodes as NearPairs. */
  lemma NodesLinkNear(data: seq<nat>, bits: nat, nodes: seq<Pair>)
    requires Labels(data, bits)
    requires forall p :: p in nodes ==>
      p.a < |data| && p.b < |data|
      && (data[p.a] == data[p.b] || Near(data[p.a], data[p.b], bits, 1) || Near(data[p.a], data[p.b], bits, 2))
    requires forall a, b :: 0 <= a < b < |data| && data[a] == data[b] ==> Pair(a, b) in nodes
    requires forall a, b :: 0 <= a < b < |data| && Near(data[a], data[b], bits, 1) ==> Pair(b, a) in nodes
    requires forall a, b :: 0 <= a < b < |data| && Near(data[a], data[b], bits, 2) ==> Pair(b, a) in nodes
    ensures forall u, v :: Pair(u, v) in PairSet(nodes) ==>
      u == v || Pair(u, v) in NearPairs(data, bits) || Pair(v, u) in NearPairs(data, bits)
    ensures forall u, v :: Pair(u, v) in NearPairs(data, bits) ==>
      u == v || Pair(u, v) in PairSet(nodes) || Pair(v, u) in PairSet(nodes)
  {
    forall u: nat, v: nat | Pair(u, v) in PairSet(nodes)
      ensures Pair(u, v) in NearPairs(data, bits)
    {
      assert Pair(u, v) in nodes;
      if data[u] == data[v] {
        assert Diff(data[u], data[v], bits) == {};
      }
    }
    forall u: nat, v: nat | Pair(u, v) in NearPairs(data, bits) && u != v
      ensures Pair(u, v) in PairSet(nodes) || Pair(v, u) in PairSet(nodes)
    {
      var a, b := if u < v then u else v, if u < v then v else u;
      var dist := |Diff(data[a], data[b], bits)|;
      assert Diff(data[a], data[b], bits) == Diff(data[u], data[v], bits);
      if dist == 0 {
        NoneIsSame(data[a], data[b], bits);
        assert Pair(a, b) in nodes;
      } else if dist == 1 {
        assert Pair(b, a) in nodes;
      } else {
        assert Pair(b, a) in nodes;
      }
    }
  }
}

/** kClustersHammingDistance.py: the labels as numbers, the pairs of indices at Hamming
    distance 0, 1 and 2, and the union of every such pair. */
module HammingClustering {
  import opened Bits
  import opened DisjointSets
  import opened UnionFind
  import opened Classes
  import opened LabelledUnion
  import opened Components
  import opened HammingNeighbours

  class MaxSpaceKClustering {
    const bits: nat
    const data: seq<nat>
    const unionFind: UnionFind

    /** The labels as read, and the union-find structure of clusterCount nodes. */
    constructor (clusterCount: nat, bits: nat, data: seq<nat>)
      ensures this.bits == bits && this.data == data && fresh(unionFind)
      ensures unionFind.Valid() && unionFind.count == clusterCount
      ensures unionFind.id == seq(clusterCount + 1, x => x)
    {
      this.bits := bits;
      this.data := data;
      unionFind := new UnionFind(clusterCount);
    }

    /** distance_0_items: group the indices by label, then append every pair of two
        indices of one label, the smaller first. */
    method Distance0Items(nodes: seq<Pair>) returns (nodes': seq<Pair>)
      ensures |nodes'| >= |nodes| && nodes'[..|nodes|] == nodes
      ensures forall p :: p in nodes' <==> p in nodes || (p.a < p.b < |data| && data[p.a] == data[p.b])
    {
      var distance0 := GroupByLabel();
      nodes' := nodes;
      var keys := distance0.Keys;
      ghost var done: set<nat> := {};
      while keys != {}
        invariant keys + done == distance0.Keys && keys !! done
        invariant |nodes'| >= |nodes| && nodes'[..|nodes|] == nodes
        invariant forall p :: p in nodes' <==>
          p in nodes
          || (p.a < p.b < |data| && data[p.a] == data[p.b] && data[p.a] in done)
        decreases keys
      {
        var k :| k in keys;
        var lst := distance0[k];
        GroupPairs(data, k);
        if |lst| > 1 {
          nodes' := nodes' + Combinations(lst);
        } else {
          assert Combinations(lst) == [];
        }
        keys := keys - {k};
        done := done + {k};
      }
      forall a, b | 0 <= a < b < |data| && data[a] == data[b] ensures data[a] in done {
        PositionsMembers(data, data[a], |data|);
        assert a in Entry(distance0, data[a]);
      }
    }

    /** The first loop of distance_0_items: the indices of each label, in order. */
    method GroupByLabel() returns (distance0: map<nat, seq<nat>>)
      ensures forall v :: Entry(distance0, v) == Positions(data, v, |data|)
    {
      distance0 := map[];
      var i := 0;
      while i < |data|
        invariant 0 <= i <= |data|
        invariant distance0 == Groups(data, i)
      {
        distance0 := Append(distance0, data[i], i);
        i := i + 1;
      }
      forall v ensures Entry(distance0, v) == Positions(data, v, |data|) {
        GroupsArePositions(data, |data|, v);
      }
    }

    /** dist_1(num, pairs, index): append index under num ^ (1 << i) for every bit i. */
    method Dist1(num: nat, pairs: map<nat, seq<nat>>, index: nat) returns (pairs': map<nat, seq<nat>>)
      ensures forall v :: v in pairs' <==> v in pairs || v in Flips(num, bits)
      ensures forall v :: Entry(pairs', v) == Entry(pairs, v) + if v in Flips(num, bits) then [index] else []
    {
      pairs' := pairs;
      var i := 0;
      while i < bits
        invariant 0 <= i <= bits
        invariant forall v :: v in pairs' <==> v in pairs || v in Flips(num, i)
        invariant forall v :: Entry(pairs', v) == Entry(pairs, v) + if v in Flips(num, i) then [index] else []
      {
        var dist1 := Xor(num, Pow2(i));
        FlipNew(num, i);
        AppendEntries(pairs', dist1, index);
        pairs' := Append(pairs', dist1, index);
        i := i + 1;
      }
    }

    /** The inner loop of dist_2 for the outer bit i: append index under
        num ^ (1 << i) ^ (1 << j) for every bit j above i. */
    method Dist2Row(num: nat, pairs: map<nat, seq<nat>>, index: nat, i: nat)
      returns (pairs': map<nat, seq<nat>>)
      ensures forall v :: v in pairs' <==> v in pairs || v in Row(num, i, bits)
      ensures forall v :: Entry(pairs', v) == Entry(pairs, v) + if v in Row(num, i, bits) then [index] else []
    {
      pairs' := pairs;
      var j := i + 1;
      if bits < j {
        return;
      }
      while j < bits
        invariant i + 1 <= j <= bits
        invariant forall v :: v in pairs' <==> v in pairs || v in Row(num, i, j)
        invariant forall v :: Entry(pairs', v) == Entry(pairs, v) + if v in Row(num, i, j) then [index] else []
      {
        var dist2 := Xor(Xor(num, Pow2(i)), Pow2(j));
        RowNew(num, i, j);
        AppendEntries(pairs', dist2, index);
        pairs' := Append(pairs', dist2, index);
        j := j + 1;
      }
    }

    /** dist_2(num, pairs, index): append index under every value that flips two bits
        of num. */
    method Dist2(num: nat, pairs: map<nat, seq<nat>>, index: nat) returns (pairs': map<nat, seq<nat>>)
      ensures forall v :: v in pairs' <==> v in pairs || v in Flips2(num, bits, Outer(bits))
      ensures forall v ::
        Entry(pairs', v) == Entry(pairs, v) + if v in Flips2(num, bits, Outer(bits)) then [index] else []
    {
      pairs' := pairs;
      var i := 0;
      while i < Outer(bits)
        invariant 0 <= i <= Outer(bits)
        invariant forall v :: v in pairs' <==> v in pairs || v in Flips2(num, bits, i)
        invariant forall v :: Entry(pairs', v) == Entry(pairs, v) + if v in Flips2(num, bits, i) then [index] else []
      {
        var next := Dist2Row(num, pairs', index, i);
        Flips2Next(num, bits, i, index, pairs, pairs', next);
        pairs' := next;
        i := i + 1;
      }
    }

    /** The first loop of distance_1_items (d == 1) and distance_2_items (d == 2): an
        index goes under its own label in present when an earlier index generated that
        label, then under every label it generates in keys. */
    method Scan(d: nat) returns (present: map<nat, seq<nat>>, keys: map<nat, seq<nat>>)
      requires d == 1 || d == 2
      requires Labels(data, bits)
      ensures Scanned(data, bits, d, present, keys, |data|)
    {
      present, keys := map[], map[];
      ScanStart(data, bits, d);
      for i := 0 to |data|
        invariant Scanned(data, bits, d, present, keys, i)
      {
        present, keys := ScanStep(d, i, present, keys);
      }
    }

    /** The body of the scan for index i: present first, as it asks whether the label
        was generated before i. */
    method ScanStep(d: nat, i: nat, present: map<nat, seq<nat>>, keys: map<nat, seq<nat>>)
      returns (present': map<nat, seq<nat>>, keys': map<nat, seq<nat>>)
      requires d == 1 || d == 2
      requires Labels(data, bits) && i < |data|
      requires Scanned(data, bits, d, present, keys, i)
      ensures Scanned(data, bits, d, present', keys', i + 1)
    {
      var x := data[i];
      present' := present;
      if x in keys {
        AppendEntries(present, x, i);
        present' := Append(present, x, i);
      }
      keys' := AddNear(d, x, keys, i);
      ScanNext(data, bits, d, present, keys, present', keys', i);
    }

    /** dist_1 (d == 1) or dist_2 (d == 2) of the label x at index i: i goes under every
        value at distance d from x. */
    method AddNear(d: nat, x: nat, keys: map<nat, seq<nat>>, i: nat) returns (keys': map<nat, seq<nat>>)
      requires d == 1 || d == 2
      requires x < Pow2(bits)
      ensures forall v :: Entry(keys', v) == Entry(keys, v) + if Near(x, v, bits, d) then [i] else []
      ensures forall v :: v in keys' <==> v in keys || Near(x, v, bits, d)
    {
      if d == 1 {
        FlipsAreNear(x, bits);
        keys' := Dist1(x, keys, i);
      } else {
        Flips2AreNear(x, bits);
        keys' := Dist2(x, keys, i);
      }
    }

    /** for c in cs: nodes.append([d, c]). */
    method AppendRow(nodes: seq<Pair>, d: nat, cs: seq<nat>) returns (nodes': seq<Pair>)
      ensures nodes' == nodes + RowPairs(d, cs)
    {
      nodes' := nodes;
      var k := 0;
      while k < |cs|
        invariant 0 <= k <= |cs|
        invariant nodes' == nodes + RowPairs(d, cs[..k])
      {
        assert RowPairs(d, cs[..k + 1]) == RowPairs(d, cs[..k]) + [Pair(d, cs[k])];
        nodes' := nodes' + [Pair(d, cs[k])];
        k := k + 1;
      }
      assert cs[..k] == cs;
    }

    /** for d in val: for c in cs: nodes.append([d, c]). */
    method AppendProduct(nodes: seq<Pair>, val: seq<nat>, cs: seq<nat>) returns (nodes': seq<Pair>)
      ensures nodes' == nodes + Product(val, cs)
    {
      nodes' := nodes;
      var k := 0;
      while k < |val|
        invariant 0 <= k <= |val|
        invariant nodes' == nodes + Product(val[..k], cs)
      {
        assert val[..k + 1][..k] == val[..k];
        nodes' := AppendRow(nodes', val[k], cs);
        k := k + 1;
      }
      assert val[..k] == val;
    }

    /** The second loop of distance_1_items and distance_2_items: for every label in
        present, pair each of its indices with each index under that label in keys.
        The dictionary's order is left open. */
    method AppendPairs(nodes: seq<Pair>, present: map<nat, seq<nat>>, keys: map<nat, seq<nat>>,
                       ghost d: nat)
      returns (nodes': seq<Pair>)
      requires forall v :: Entry(keys, v) == NearIndices(data, bits, d, v, |data|)
      requires forall v :: Entry(present, v) == PresentIndices(data, bits, d, v, |data|)
      ensures |nodes'| >= |nodes| && nodes'[..|nodes|] == nodes
      ensures forall p :: p in nodes' <==>
        p in nodes
        || (p.a < |data| && p.a in PresentIndices(data, bits, d, data[p.a], |data|)
            && p.b in NearIndices(data, bits, d, data[p.a], |data|))
    {
      nodes' := nodes;
      var remaining := present.Keys;
      ghost var done: set<nat> := {};
      while remaining != {}
        invariant remaining + done == present.Keys && remaining !! done
        invariant |nodes'| >= |nodes| && nodes'[..|nodes|] == nodes
        invariant forall p :: p in nodes' <==>
          p in nodes
          || (p.a < |data| && data[p.a] in done && p.a in PresentIndices(data, bits, d, data[p.a], |data|)
              && p.b in NearIndices(data, bits, d, data[p.a], |data|))
        decreases remaining
      {
        var key :| key in remaining;
        var val := present[key];
        var cs := Entry(keys, key);
        forall p ensures p in Product(val, cs) <==>
          p.a < |data| && data[p.a] == key && p.a in PresentIndices(data, bits, d, data[p.a], |data|)
          && p.b in NearIndices(data, bits, d, data[p.a], |data|)
        {
          ProductMembers(val, cs, p);
          if p.a in val {
            PresentSound(data, bits, d, key, |data|, p.a);
          }
        }
        nodes' := AppendProduct(nodes', val, cs);
        remaining := remaining - {key};
        done := done + {key};
      }
      forall j: nat | j < |data| && j in PresentIndices(data, bits, d, data[j], |data|)
        ensures data[j] in done
      {
        assert j in Entry(present, data[j]);
      }
    }

    /** The pairs one of the distance_1_items or distance_2_items methods appends are at
        distance d, and every two indices at distance d appear, the later one first. */
    method DistanceItems(nodes: seq<Pair>, d: nat) returns (nodes': seq<Pair>)
      requires d == 1 || d == 2
      requires Labels(data, bits)
      ensures |nodes'| >= |nodes| && nodes'[..|nodes|] == nodes
      ensures forall p :: p in nodes' ==>
        p in nodes
        || (p.a < |data| && p.b < |data| && Near(data[p.a], data[p.b], bits, d))
      ensures forall a, b :: 0 <= a < b < |data| && Near(data[a], data[b], bits, d) ==> Pair(b, a) in nodes'
    {
      var present, keys := Scan(d);
      nodes' := AppendPairs(nodes, present, keys, d);
      forall p | p in nodes' && p !in nodes
        ensures p.a < |data| && p.b < |data| && Near(data[p.a], data[p.b], bits, d)
      {
        NearIndicesMembers(data, bits, d, data[p.a], |data|, p.b);
        NearSymmetric(data[p.b], data[p.a], bits, d);
      }
      forall a, b | 0 <= a < b < |data| && Near(data[a], data[b], bits, d)
        ensures Pair(b, a) in nodes'
      {
        PresentComplete(data, bits, d, |data|, a, b);
        NearIndicesMembers(data, bits, d, data[b], |data|, a);
      }
    }

    /** distance_1_items: the pairs of indices whose labels differ in one bit. */
    method Distance1Items(nodes: seq<Pair>) returns (nodes': seq<Pair>)
      requires Labels(data, bits)
      ensures |nodes'| >= |nodes| && nodes'[..|nodes|] == nodes
      ensures forall p :: p in nodes' ==>
        p in nodes
        || (p.a < |data| && p.b < |data| && Near(data[p.a], data[p.b], bits, 1))
      ensures forall a, b :: 0 <= a < b < |data| && Near(data[a], data[b], bits, 1) ==> Pair(b, a) in nodes'
    {
      nodes' := DistanceItems(nodes, 1);
    }

    /** distance_2_items: the pairs of indices whose labels differ in two bits. */
    method Distance2Items(nodes: seq<Pair>) returns (nodes': seq<Pair>)
      requires Labels(data, bits)
      ensures |nodes'| >= |nodes| && nodes'[..|nodes|] == nodes
      ensures forall p :: p in nodes' ==>
        p in nodes
        || (p.a < |data| && p.b < |data| && Near(data[p.a], data[p.b], bits, 2))
      ensures forall a, b :: 0 <= a < b < |data| && Near(data[a], data[b], bits, 2) ==> Pair(b, a) in nodes'
    {
      nodes' := DistanceItems(nodes, 2);
    }

    /** The union loop of solve: union of the two ends of every pair, in order. */
    method UnionAll(nodes: seq<Pair>, ghost labels: seq<nat>) returns (ghost labels': seq<nat>)
      requires unionFind.Valid() && Within(nodes, |unionFind.id|)
      requires SameClasses(unionFind.id, unionFind.rank, labels)
      modifies unionFind
      ensures unionFind.Valid() && |unionFind.id| == old(|unionFind.id|)
      ensures labels' == Merges(labels, nodes)
      ensures SameClasses(unionFind.id, unionFind.rank, labels')
    {
      labels' := labels;
      var i := 0;
      while i < |nodes|
        invariant 0 <= i <= |nodes| && unionFind.Valid() && |unionFind.id| == old(|unionFind.id|)
        invariant SameClasses(unionFind.id, unionFind.rank, labels')
        invariant Within(nodes[i..], |labels'|)
        invariant Merges(labels', nodes[i..]) == Merges(labels, nodes)
      {
        var pair := nodes[i];
        assert nodes[i..][0] == pair && nodes[i..][1..] == nodes[i + 1..];
        assert pair in nodes[i..];
        WithinTail(nodes[i..], |labels'|);
        labels' := UnionOfClasses(unionFind, pair.a, pair.b, labels');
        i := i + 1;
      }
      assert nodes[i..] == [];
    }

    /** solve: union every pair of labels at most 2 apart and return count. Two nodes
        end in one cluster exactly when a chain of such pairs, through the clusters
        there were before, joins them; count is one less than the number of trees, the
        spare node N keeping one of its own. */
    method Solve() returns (count: int)
      requires unionFind.Valid() && Labels(data, bits) && |data| < |unionFind.id|
      modifies unionFind
      ensures unionFind.Valid() && count == |Roots(unionFind.id)| - 1
      ensures forall x, y :: 0 <= x < |unionFind.id| && 0 <= y < |unionFind.id| ==>
        (Root(unionFind.id, unionFind.rank, x) == Root(unionFind.id, unionFind.rank, y)
         <==> Linked(RootLabels(old(unionFind.id), old(unionFind.rank)), NearPairs(data, bits), x, y))
    {
      var nodesToMerge: seq<Pair> := [];
      nodesToMerge := Distance0Items(nodesToMerge);
      nodesToMerge := Distance1Items(nodesToMerge);
      nodesToMerge := Distance2Items(nodesToMerge);
      NodesLinkNear(data, bits, nodesToMerge);
      ghost var labels0 := RootLabels(unionFind.id, unionFind.rank);
      ghost var labels := UnionAll(nodesToMerge, labels0);
      forall x, y | 0 <= x < |unionFind.id| && 0 <= y < |unionFind.id|
        ensures labels[x] == labels[y] <==> Linked(labels0, NearPairs(data, bits), x, y)
      {
        MergesAreLinks(labels0, nodesToMerge, x, y);
        SameLinks(labels0, PairSet(nodesToMerge), NearPairs(data, bits), x, y);
      }
      count := unionFind.Count();
    }
  }
}
