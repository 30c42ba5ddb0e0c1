/** Maximum-weight independent set of a path graph by dynamic programming, with the
    reconstruction walk (maxWeightIndependentSet.py). Vertices are 1..n; weights[0] is
    the unused placeholder the loader puts in front. */
module MaxWeightIndependentSet {
  import opened Wrappers

  /** The failure of calcMaxWeight on an empty path: cache[1] does not exist. */
  datatype MwisError = IndexError

  function Max(a: int, b: int): int { if a >= b then a else b }

  /** The recurrence the cache is filled with: the best weight using vertices 1..i. */
  function Opt(w: seq<int>, i: nat): int
    requires i < |w|
  {
    if i == 0 then 0
    else if i == 1 then w[1]
    else Max(Opt(w, i - 1), Opt(w, i - 2) + w[i])
  }

  ghost predicate NonNegative(w: seq<int>)
  {
    forall k :: 1 <= k < |w| ==> w[k] >= 0
  }

  /** p lists vertices of 1..n in increasing order, no two of them adjacent. */
  ghost predicate Independent(p: seq<int>, n: int)
  {
    (forall k :: 0 <= k < |p| ==> 1 <= p[k] <= n)
    && (forall k :: 0 <= k < |p| - 1 ==> p[k] + 2 <= p[k + 1])
  }

  /** Total weight of the listed vertices. */
  function PathWeight(w: seq<int>, p: seq<int>): int
    requires forall k :: 0 <= k < |p| ==> 0 <= p[k] < |w|
  {
    if p == [] then 0 else PathWeight(w, p[..|p| - 1]) + w[p[|p| - 1]]
  }

  lemma {:induction false} PathWeightPrepend(w: seq<int>, x: int, p: seq<int>)
    requires 0 <= x < |w|
    requires forall k :: 0 <= k < |p| ==> 0 <= p[k] < |w|
    ensures PathWeight(w, [x] + p) == w[x] + PathWeight(w, p)
    decreases |p|
  {
    if p != [] {
      assert ([x] + p)[..|p|] == [x] + p[..|p| - 1];
      PathWeightPrepend(w, x, p[..|p| - 1]);
    }
  }

  lemma {:induction false} OptNonNegative(w: seq<int>, i: nat)
    requires i < |w| && NonNegative(w)
    ensures Opt(w, i) >= 0
  {
    if i >= 2 {
      OptNonNegative(w, i - 1);
    }
  }

  /** Every listed vertex before the last is at least two below it. */
  lemma {:induction false} IndependentBelowLast(p: seq<int>, n: int)
    requires Independent(p, n) && p != []
    ensures forall k :: 0 <= k < |p| - 1 ==> p[k] + 2 <= p[|p| - 1]
    decreases |p|
  {
    if |p| >= 2 {
      var q := p[..|p| - 1];
      assert Independent(q, n);
      IndependentBelowLast(q, n);
      forall k | 0 <= k < |p| - 1
        ensures p[k] + 2 <= p[|p| - 1]
      {
        if k < |p| - 2 {
          assert p[k] == q[k];
        }
      }
    }
  }

  /** With non-negative weights, no independent set of 1..i weighs more than cache[i]. */
  lemma {:induction false} OptIsUpperBound(w: seq<int>, i: nat, p: seq<int>)
    requires i < |w| && NonNegative(w) && Independent(p, i)
    ensures PathWeight(w, p) <= Opt(w, i)
  {
    if p == [] {
      OptNonNegative(w, i);
    } else {
      var q := p[..|p| - 1];
      var last := p[|p| - 1];
      IndependentBelowLast(p, i);
      if i == 1 {
        assert p[0] + 2 > p[|p| - 1];
        assert q == [];
      } else if last == i {
        assert Independent(q, i - 2) by {
          if q != [] {
            assert q[|q| - 1] == p[|p| - 2];
          }
        }
        OptIsUpperBound(w, i - 2, q);
      } else {
        OptIsUpperBound(w, i - 1, p);
      }
    }
  }

  lemma IndependentPrepend(i: int, p: seq<int>, n: int)
    requires Independent(p, n) && 1 <= i <= n
    requires p != [] ==> p[0] >= i + 2
    ensures Independent([i] + p, n)
  {
    var r := [i] + p;
    forall k | 0 <= k < |r| - 1
      ensures r[k] + 2 <= r[k + 1]
    {
      if k > 0 {
        assert r[k] == p[k - 1] && r[k + 1] == p[k];
      }
    }
  }

  /** The cache calcMaxWeight hands to getPath: cache[k] is the recurrence at k. */
  ghost predicate IsTable(cache: seq<int>, w: seq<int>)
  {
    NonNegative(w) && |cache| == |w| && |cache| > 0
    && forall k :: 0 <= k < |cache| ==> cache[k] == Opt(w, k)
  }

  /** The weight still to be collected when the walk stands at vertex i. */
  function Remaining(cache: seq<int>, i: int): int
    requires i < |cache|
  {
    if i <= 0 then 0 else cache[i]
  }

  /** The walk's branch that skips vertex i keeps the weight balance. */
  lemma SkipStep(cache: seq<int>, w: seq<int>, i: int, path: seq<int>)
    requires 1 <= i < |cache| <= |w|
    requires forall k :: 0 <= k < |path| ==> 0 <= path[k] < |w|
    requires cache[i - 1] >= cache[if i >= 2 then i - 2 else |cache| - 1] + w[i]
    requires IsTable(cache, w) ==>
      PathWeight(w, path) + Remaining(cache, i) == cache[|cache| - 1]
    ensures IsTable(cache, w) ==>
      PathWeight(w, path) + Remaining(cache, i - 1) == cache[|cache| - 1]
  {
    if IsTable(cache, w) {
      if i == 1 {
        OptNonNegative(w, |cache| - 1);
        assert cache[1] == w[1];
      } else {
        assert cache[i] == Opt(w, i);
        assert cache[i - 1] == Opt(w, i - 1) && cache[i - 2] == Opt(w, i - 2);
      }
    }
  }

  /** The walk's branch that takes vertex i keeps the weight balance. */
  lemma TakeStep(cache: seq<int>, w: seq<int>, i: int, path: seq<int>)
    requires 1 <= i < |cache| <= |w|
    requires forall k :: 0 <= k < |path| ==> 0 <= path[k] < |w|
    requires cache[i - 1] < cache[if i >= 2 then i - 2 else |cache| - 1] + w[i]
    requires IsTable(cache, w) ==>
      PathWeight(w, path) + Remaining(cache, i) == cache[|cache| - 1]
    ensures IsTable(cache, w) ==>
      PathWeight(w, [i] + path) + Remaining(cache, i - 2) == cache[|cache| - 1]
  {
    PathWeightPrepend(w, i, path);
    if IsTable(cache, w) {
      if i == 1 {
        assert cache[1] == w[1];
      } else {
        assert cache[i] == Opt(w, i);
        assert cache[i - 1] == Opt(w, i - 1) && cache[i - 2] == Opt(w, i - 2);
        assert cache[0] == 0;
      }
    }
  }

  /** getPath: walk the filled cache from the right, taking vertex i when the second
      case of the recurrence won. At i == 1 it reads cache[i-2], which Python resolves
      to cache[-1], the LAST cache entry (modelled as written). */
  method GetPath(cache: seq<int>, weights: seq<int>) returns (path: seq<int>)
    requires |weights| >= |cache|
    ensures Independent(path, |cache| - 1)
    ensures IsTable(cache, weights) ==> PathWeight(weights, path) == cache[|cache| - 1]
  {
    var i := |cache| - 1;
    path := [];
    while i > 0
      invariant -1 <= i <= |cache| - 1
      invariant Independent(path, |cache| - 1)
      invariant path != [] ==> path[0] >= i + 2
      invariant IsTable(cache, weights) ==>
        PathWeight(weights, path) + Remaining(cache, i) == cache[|cache| - 1]
    {
      var before := cache[if i >= 2 then i - 2 else |cache| - 1];
      if cache[i - 1] >= before + weights[i] {
        SkipStep(cache, weights, i, path);
        i := i - 1;
      } else {
        TakeStep(cache, weights, i, path);
        IndependentPrepend(i, path, |cache| - 1);
        path := [i] + path;
        i := i - 2;
      }
    }
  }

  /** The eight vertices whose membership the output string reports. */
  const Queried: seq<int> := [1, 2, 3, 4, 17, 117, 517, 997]

  /** The output string: '1' at position k exactly when the k-th queried vertex is in
      the path. */
  method Membership(path: seq<int>) returns (outputString: string)
    ensures |outputString| == |Queried|
    ensures forall k :: 0 <= k < |Queried| ==> (outputString[k] == '1' <==> Queried[k] in path)
    ensures forall k :: 0 <= k < |Queried| ==> outputString[k] in "01"
  {
    outputString := "";
    var q := 0;
    while q < |Queried|
      invariant 0 <= q <= |Queried| && |outputString| == q
      invariant forall k :: 0 <= k < q ==> (outputString[k] == '1' <==> Queried[k] in path)
      invariant forall k :: 0 <= k < q ==> outputString[k] in "01"
    {
      outputString := outputString + (if Queried[q] in path then "1" else "0");
      q := q + 1;
    }
  }

  /** The first loop of calcMaxWeight: cache[i] = max(cache[i-1], cache[i-2] + w[i]). */
  method FillCache(weights: seq<int>, vertexCount: nat) returns (cache: seq<int>)
    requires |weights| == vertexCount + 1 && vertexCount >= 1
    ensures |cache| == vertexCount + 1
    ensures forall k :: 0 <= k < |cache| ==> cache[k] == Opt(weights, k)
  {
    cache := seq(vertexCount + 1, _ => 0);
    cache := cache[1 := weights[1]];
    var i := 2;
    while i <= vertexCount
      invariant 2 <= i <= vertexCount + 1
      invariant |cache| == vertexCount + 1
      invariant forall k :: 0 <= k < i ==> cache[k] == Opt(weights, k)
    {
      var best := Max(cache[i - 1], cache[i - 2] + weights[i]);
      assert best == Opt(weights, i);
      cache := cache[i := best];
      i := i + 1;
    }
  }

  /** calcMaxWeight: fill cache[i] = max(cache[i-1], cache[i-2] + w[i]), reconstruct the
      set and report membership of the eight queried vertices as a 0/1 string. */
  method CalcMaxWeight(weights: seq<int>, vertexCount: nat)
    returns (r: Result<(int, string), MwisError>)
    requires |weights| == vertexCount + 1
    ensures r.Failure? <==> vertexCount == 0
    ensures r.Success? ==> r.value.0 == Opt(weights, vertexCount)
    ensures r.Success? ==> |r.value.1| == |Queried|
    ensures r.Success? && NonNegative(weights) ==>
      exists path :: Independent(path, vertexCount)
        && PathWeight(weights, path) == r.value.0
        && forall k :: 0 <= k < |Queried| ==> (r.value.1[k] == '1' <==> Queried[k] in path)
  {
    if vertexCount == 0 {
      return Failure(IndexError);
    }
    var cache := FillCache(weights, vertexCount);
    assert IsTable(cache, weights) <== NonNegative(weights);
    var maxWeight := cache[|cache| - 1];
    var path := GetPath(cache, weights);
    var outputString := Membership(path);
    r := Success((maxWeight, outputString));
  }
}
