/** The 0/1 knapsack problem three ways: a 2-D table with a traceback, a 1-D table
    updated right to left, and a memoised recursion (knapsackProblem.py). Items are
    1..n-1; index 0 of values and weights is the placeholder the loader puts in front. */
module Knapsack {
  import opened Wrappers

  /** "Invalid input" is raised explicitly; NameError comes from the traceback reading the
      loop variables i and j after loops that never bound them. */
  datatype KnapsackError = InvalidInput | NameError

  /** The caller's side of the contract: one weight per value, positive item weights. */
  ghost predicate WellFormed(values: seq<int>, weights: seq<int>)
  {
    |values| == |weights| && forall k :: 1 <= k < |weights| ==> weights[k] > 0
  }

  function Max(a: int, b: int): int { if a >= b then a else b }

  // ---------------------------------------------------------------------------
  // Subsets of items, their total value and total weight

  /** s lists distinct items of lo..hi in increasing order. */
  ghost predicate Subset(s: seq<int>, lo: int, hi: int)
  {
    (forall k :: 0 <= k < |s| ==> lo <= s[k] <= hi)
    && (forall k :: 0 <= k < |s| - 1 ==> s[k] < s[k + 1])
  }

  /** Sum of f over the listed indices. */
  function Sum(f: seq<int>, s: seq<int>): int
    requires forall k :: 0 <= k < |s| ==> 0 <= s[k] < |f|
  {
    if s == [] then 0 else f[s[0]] + Sum(f, s[1..])
  }

  lemma {:induction false} SumSnoc(f: seq<int>, s: seq<int>, x: int)
    requires forall k :: 0 <= k < |s| ==> 0 <= s[k] < |f|
    requires 0 <= x < |f|
    ensures Sum(f, s + [x]) == Sum(f, s) + f[x]
  {
    if s != [] {
      assert (s + [x])[1..] == s[1..] + [x];
      SumSnoc(f, s[1..], x);
    }
  }

  lemma {:induction false} SumNonNegative(weights: seq<int>, s: seq<int>)
    requires forall k :: 0 <= k < |s| ==> 1 <= s[k] < |weights|
    requires forall k :: 1 <= k < |weights| ==> weights[k] > 0
    ensures Sum(weights, s) >= 0
    ensures s != [] ==> Sum(weights, s) > 0
  {
    if s != [] {
      SumNonNegative(weights, s[1..]);
    }
  }

  /** v is the best value over subsets of lo..hi weighing at most cap: some subset
      attains it and none exceeds it. */
  ghost predicate IsOptimum(values: seq<int>, weights: seq<int>, lo: int, hi: int, cap: int, v: int)
    requires |values| == |weights| && 1 <= lo && hi < |values|
  {
    (exists s :: Subset(s, lo, hi) && Sum(weights, s) <= cap && Sum(values, s) == v)
    && (forall s :: Subset(s, lo, hi) && Sum(weights, s) <= cap ==> Sum(values, s) <= v)
  }

  lemma OptimumUnique(values: seq<int>, weights: seq<int>, lo: int, hi: int, cap: int, a: int, b: int)
    requires |values| == |weights| && 1 <= lo && hi < |values|
    requires IsOptimum(values, weights, lo, hi, cap, a) && IsOptimum(values, weights, lo, hi, cap, b)
    ensures a == b
  {
    var sa :| Subset(sa, lo, hi) && Sum(weights, sa) <= cap && Sum(values, sa) == a;
    var sb :| Subset(sb, lo, hi) && Sum(weights, sb) <= cap && Sum(values, sb) == b;
  }

  // ---------------------------------------------------------------------------
  // The prefix recurrence of the tables: dp[i][j] over items 1..i and capacity j

  function Table(values: seq<int>, weights: seq<int>, i: nat, j: nat): int
    requires |values| == |weights| && i < |values|
  {
    if i == 0 then 0
    else
      var exclude := Table(values, weights, i - 1, j);
      if j >= weights[i] && Table(values, weights, i - 1, j - weights[i]) + values[i] > exclude
      then Table(values, weights, i - 1, j - weights[i]) + values[i]
      else exclude
  }

  /** Items 1..i chosen by the traceback rule: take i exactly when the row changes. */
  ghost function TableChoice(values: seq<int>, weights: seq<int>, i: nat, j: nat): (s: seq<int>)
    requires WellFormed(values, weights) && i < |values|
    ensures Subset(s, 1, i) && Sum(weights, s) <= j && Sum(values, s) == Table(values, weights, i, j)
  {
    if i == 0 then []
    else if Table(values, weights, i, j) != Table(values, weights, i - 1, j) then
      var t := TableChoice(values, weights, i - 1, j - weights[i]);
      SumSnoc(weights, t, i);
      SumSnoc(values, t, i);
      t + [i]
    else
      TableChoice(values, weights, i - 1, j)
  }

  /** dp[i][j] is the maximum value of a subset of items 1..i weighing at most j. */
  lemma {:induction false} TableOptimal(values: seq<int>, weights: seq<int>, i: nat, j: nat)
    requires WellFormed(values, weights) && i < |values|
    ensures IsOptimum(values, weights, 1, i, j, Table(values, weights, i, j))
  {
    var chosen := TableChoice(values, weights, i, j);
    forall s | Subset(s, 1, i) && Sum(weights, s) <= j
      ensures Sum(values, s) <= Table(values, weights, i, j)
    {
      TableUpperBound(values, weights, i, j, s);
    }
  }

  /** Both cases of the recurrence bound dp[i][j] from below. */
  lemma TableAtLeast(values: seq<int>, weights: seq<int>, i: nat, j: nat)
    requires |values| == |weights| && 1 <= i < |values|
    ensures Table(values, weights, i, j) >= Table(values, weights, i - 1, j)
    ensures j >= weights[i] ==>
      Table(values, weights, i, j) >= Table(values, weights, i - 1, j - weights[i]) + values[i]
  {
  }

  lemma {:induction false} TableUpperBound(values: seq<int>, weights: seq<int>, i: nat, j: nat, s: seq<int>)
    requires WellFormed(values, weights) && i < |values|
    requires Subset(s, 1, i) && Sum(weights, s) <= j
    ensures Sum(values, s) <= Table(values, weights, i, j)
    decreases i, 1
  {
    if s == [] {
      TableNonNegative(values, weights, i, j);
    } else {
      SubsetInitBelowLast(s, 1, i);
      if s[|s| - 1] == i {
        TakenBound(values, weights, i, j, s);
      } else {
        assert Subset(s, 1, i - 1);
        TableUpperBound(values, weights, i - 1, j, s);
        TableAtLeast(values, weights, i, j);
      }
    }
  }

  /** The case of TableUpperBound where the subset ends with item i. */
  lemma {:induction false} TakenBound(values: seq<int>, weights: seq<int>, i: nat, j: nat, s: seq<int>)
    requires WellFormed(values, weights) && 1 <= i < |values|
    requires Subset(s, 1, i) && Sum(weights, s) <= j && s != [] && s[|s| - 1] == i
    requires forall k :: 0 <= k < |s| - 1 ==> s[k] < s[|s| - 1]
    ensures Sum(values, s) <= Table(values, weights, i, j)
    decreases i, 0
  {
    var init := s[..|s| - 1];
    InitSubset(s, i);
    assert Sum(weights, init) + weights[i] <= j && Sum(weights, init) >= 0 by {
      SumSnoc(weights, init, i);
      SumNonNegative(weights, init);
    }
    assert Sum(values, s) == Sum(values, init) + values[i] by {
      SumSnoc(values, init, i);
    }
    TableUpperBound(values, weights, i - 1, j - weights[i], init);
    TableAtLeast(values, weights, i, j);
  }

  /** A subset of 1..i ending with i is a subset of 1..i - 1 followed by i. */
  lemma InitSubset(s: seq<int>, i: int)
    requires Subset(s, 1, i) && s != [] && s[|s| - 1] == i
    requires forall k :: 0 <= k < |s| - 1 ==> s[k] < s[|s| - 1]
    ensures s == s[..|s| - 1] + [i] && Subset(s[..|s| - 1], 1, i - 1)
  {
  }

  lemma {:induction false} SubsetInitBelowLast(s: seq<int>, lo: int, hi: int)
    requires Subset(s, lo, hi) && s != []
    ensures forall k :: 0 <= k < |s| - 1 ==> s[k] < s[|s| - 1]
    decreases |s|
  {
    if |s| >= 2 {
      var init := s[..|s| - 1];
      SubsetInitBelowLast(init, lo, hi);
      assert forall k :: 0 <= k < |init| ==> init[k] == s[k];
    }
  }

  /** Everything after the first listed item lies strictly above it. */
  lemma {:induction false} SubsetTail(s: seq<int>, lo: int, hi: int)
    requires Subset(s, lo, hi) && s != []
    ensures Subset(s[1..], s[0] + 1, hi)
    decreases |s|
  {
    if |s| >= 2 {
      SubsetTail(s[1..], lo, hi);
      assert s[1..][1..] == s[2..];
    }
  }

  lemma {:induction false} TableNonNegative(values: seq<int>, weights: seq<int>, i: nat, j: nat)
    requires |values| == |weights| && i < |values|
    ensures Table(values, weights, i, j) >= 0
  {
    if i > 0 {
      TableNonNegative(values, weights, i - 1, j);
    }
  }

  /** With positive weights nothing fits in capacity 0: the column dp[i][0] the loops
      never write is already right. */
  lemma {:induction false} TableZeroCapacity(values: seq<int>, weights: seq<int>, i: nat)
    requires WellFormed(values, weights) && i < |values|
    ensures Table(values, weights, i, 0) == 0
  {
    if i > 0 {
      TableZeroCapacity(values, weights, i - 1);
    }
  }

  // ---------------------------------------------------------------------------
  // The suffix recurrence of the memoised helper: helper(w, item) over items item..n-1

  function Rec(values: seq<int>, weights: seq<int>, w: nat, item: nat): int
    requires |values| == |weights| && 1 <= item <= |values|
    decreases |values| - item
  {
    if w == 0 || item == |values| then 0
    else if weights[item] > w then Rec(values, weights, w, item + 1)
    else Max(values[item] + Rec(values, weights, w - weights[item], item + 1),
             Rec(values, weights, w, item + 1))
  }

  /** Items of item..n-1 chosen by following the winning case of the helper. */
  ghost function RecChoice(values: seq<int>, weights: seq<int>, w: nat, item: nat): (s: seq<int>)
    requires WellFormed(values, weights) && 1 <= item <= |values|
    ensures Subset(s, item, |values| - 1) && Sum(weights, s) <= w
    ensures Sum(values, s) == Rec(values, weights, w, item)
    decreases |values| - item
  {
    if w == 0 || item == |values| then []
    else if weights[item] > w then RecChoice(values, weights, w, item + 1)
    else if values[item] + Rec(values, weights, w - weights[item], item + 1)
            >= Rec(values, weights, w, item + 1)
    then [item] + RecChoice(values, weights, w - weights[item], item + 1)
    else RecChoice(values, weights, w, item + 1)
  }

  lemma {:induction false} RecNonNegative(values: seq<int>, weights: seq<int>, w: nat, item: nat)
    requires |values| == |weights| && 1 <= item <= |values|
    ensures Rec(values, weights, w, item) >= 0
    decreases |values| - item
  {
    if w != 0 && item != |values| {
      RecNonNegative(values, weights, w, item + 1);
    }
  }

  lemma {:induction false} RecUpperBound(values: seq<int>, weights: seq<int>, w: nat, item: nat, s: seq<int>)
    requires WellFormed(values, weights) && 1 <= item <= |values|
    requires Subset(s, item, |values| - 1) && Sum(weights, s) <= w
    ensures Sum(values, s) <= Rec(values, weights, w, item)
    decreases |values| - item
  {
    SumNonNegative(weights, s);
    assert s != [] ==> item <= s[0] <= |values| - 1;
    if s != [] {
      SubsetTail(s, item, |values| - 1);
    }
    if s == [] {
      RecNonNegative(values, weights, w, item);
    } else if s[0] == item {
      SumNonNegative(weights, s[1..]);
      RecUpperBound(values, weights, w - weights[item], item + 1, s[1..]);
    } else {
      RecUpperBound(values, weights, w, item + 1, s);
    }
  }

  /** helper(w, item) is the maximum value of a subset of items item..n-1 weighing at most w. */
  lemma {:induction false} RecOptimal(values: seq<int>, weights: seq<int>, w: nat, item: nat)
    requires WellFormed(values, weights) && 1 <= item <= |values|
    ensures IsOptimum(values, weights, item, |values| - 1, w, Rec(values, weights, w, item))
  {
    var chosen := RecChoice(values, weights, w, item);
    forall s | Subset(s, item, |values| - 1) && Sum(weights, s) <= w
      ensures Sum(values, s) <= Rec(values, weights, w, item)
    {
      RecUpperBound(values, weights, w, item, s);
    }
  }

  /** The tables and the memoised recursion compute the same maximum. */
  lemma TableMatchesRecursion(values: seq<int>, weights: seq<int>, capacity: nat)
    requires WellFormed(values, weights) && |values| >= 1
    ensures Table(values, weights, |values| - 1, capacity) == Rec(values, weights, capacity, 1)
  {
    TableOptimal(values, weights, |values| - 1, capacity);
    RecOptimal(values, weights, capacity, 1);
    OptimumUnique(values, weights, 1, |values| - 1, capacity,
                  Table(values, weights, |values| - 1, capacity), Rec(values, weights, capacity, 1));
  }

  ghost predicate BadInput(capacity: int, values: seq<int>, weights: seq<int>)
  {
    capacity < 0 || values == [] || weights == []
  }

  // ---------------------------------------------------------------------------
  // Option 1: the 2-D table and the traceback

  /** The inner loop of knapsack: fill row i of the table from row i-1, left to right,
      taking item i at capacity j when it fits and beats the row above. lastJ is the
      value the loop variable j is left bound to (None when the loop never ran). */
  method FillRow(values: seq<int>, weights: seq<int>, i: nat, previous: seq<int>,
                 row: seq<int>, capacity: nat)
    returns (current: seq<int>, lastJ: Option<nat>)
    requires WellFormed(values, weights) && 1 <= i < |values|
    requires |previous| == |row| == capacity + 1 && row[0] == 0
    requires forall k :: 0 <= k <= capacity ==> previous[k] == Table(values, weights, i - 1, k)
    ensures |current| == capacity + 1
    ensures forall k :: 0 <= k <= capacity ==> current[k] == Table(values, weights, i, k)
    ensures lastJ == if capacity == 0 then None else Some(capacity)
  {
    var v := values[i];
    var w := weights[i];
    TableZeroCapacity(values, weights, i);
    current := row;
    lastJ := None;
    var j := 1;
    while j <= capacity
      invariant 1 <= j <= capacity + 1 && |current| == capacity + 1
      invariant forall k :: 0 <= k < j ==> current[k] == Table(values, weights, i, k)
      invariant lastJ == if j == 1 then None else Some(j - 1)
    {
      var cur := previous[j];
      if j >= w && previous[j - w] + v > cur {
        cur := previous[j - w] + v;
      }
      current := current[j := cur];
      lastJ := Some(j);
      j := j + 1;
    }
  }

  /** knapsack: fill dp[i][j] row by row, then trace back from the last row with the loop
      variables i and j the filling loops left behind. Yields dp[-1][-1] and the items, which
      knapsack prints. boundI and boundJ record whether Python has bound those variables. */
  method KnapsackTable(capacity: int, values: seq<int>, weights: seq<int>)
    returns (r: Result<(int, seq<int>), KnapsackError>)
    requires WellFormed(values, weights)
    ensures r == Failure(InvalidInput) <==> BadInput(capacity, values, weights)
    ensures r == Failure(NameError) <==> !BadInput(capacity, values, weights)
                                          && (|values| == 1 || capacity == 0)
    ensures r.Success? ==> r.value.0 == Table(values, weights, |values| - 1, capacity)
    ensures r.Success? ==> IsOptimum(values, weights, 1, |values| - 1, capacity, r.value.0)
    ensures r.Success? ==> (Subset(r.value.1, 1, |values| - 1)
      && Sum(weights, r.value.1) <= capacity && Sum(values, r.value.1) == r.value.0)
  {
    if capacity < 0 || values == [] || weights == [] {
      return Failure(InvalidInput);
    }
    var n := |values|;
    var dp := seq(n, _ => seq(capacity + 1, _ => 0));
    var boundI: Option<nat> := None;
    var boundJ: Option<nat> := None;
    var i := 1;
    while i < n
      invariant 1 <= i <= n && |dp| == n
      invariant forall row :: 0 <= row < n ==> |dp[row]| == capacity + 1
      invariant forall row, k :: 0 <= row < i && 0 <= k <= capacity ==> dp[row][k] == Table(values, weights, row, k)
      invariant forall row :: i <= row < n ==> dp[row][0] == 0
      invariant boundI == if i == 1 then None else Some(i - 1)
      invariant boundJ == if i == 1 || capacity == 0 then None else Some(capacity)
    {
      var current, lastJ := FillRow(values, weights, i, dp[i - 1], dp[i], capacity);
      if lastJ.Some? {
        boundJ := lastJ;
      }
      dp := dp[i := current];
      boundI := Some(i);
      i := i + 1;
    }
    if boundI.None? || boundJ.None? {
      return Failure(NameError);
    }
    var items := Traceback(values, weights, dp, boundI.value, boundJ.value);
    TableOptimal(values, weights, n - 1, capacity);
    r := Success((dp[n - 1][capacity], items));
  }

  /** The traceback loop of knapsack: item i is in the knapsack exactly when dp[i][j]
      differs from the row above, and then its weight leaves the remaining capacity. */
  method Traceback(values: seq<int>, weights: seq<int>, dp: seq<seq<int>>, last: nat, capacity: nat)
    returns (items: seq<int>)
    requires WellFormed(values, weights) && last < |values| == |dp|
    requires forall row :: 0 <= row < |dp| ==> |dp[row]| == capacity + 1
    requires forall row, k :: 0 <= row < |dp| && 0 <= k <= capacity ==> dp[row][k] == Table(values, weights, row, k)
    ensures Subset(items, 1, last) && Sum(weights, items) <= capacity
    ensures Sum(values, items) == Table(values, weights, last, capacity)
  {
    var i := last;
    var j: int := capacity;
    items := [];
    while i > 0
      invariant 0 <= i <= last && 0 <= j <= capacity
      invariant Subset(items, i + 1, last)
      invariant Sum(weights, items) + j == capacity
      invariant Sum(values, items) + Table(values, weights, i, j) == Table(values, weights, last, capacity)
    {
      if dp[i][j] != dp[i - 1][j] {
        items := [i] + items;
        j := j - weights[i];
      }
      i := i - 1;
    }
  }

  // ---------------------------------------------------------------------------
  // Option 2: one row, updated from right to left

  /** knapsack_lessSpace: after item i, dp[j] holds row i of the 2-D table. Walking j
      downwards keeps dp[j - w] at its row i-1 value when dp[j] is updated. */
  method KnapsackLessSpace(capacity: int, values: seq<int>, weights: seq<int>)
    returns (r: Result<int, KnapsackError>)
    requires WellFormed(values, weights)
    ensures r.Failure? <==> BadInput(capacity, values, weights)
    ensures r.Failure? ==> r.error == InvalidInput
    ensures r.Success? ==> r.value == Table(values, weights, |values| - 1, capacity)
    ensures r.Success? ==> IsOptimum(values, weights, 1, |values| - 1, capacity, r.value)
  {
    if capacity < 0 || values == [] || weights == [] {
      return Failure(InvalidInput);
    }
    var dp := seq(capacity + 1, _ => 0);
    var i := 1;
    while i < |values|
      invariant 1 <= i <= |values| && |dp| == capacity + 1
      invariant forall k :: 0 <= k <= capacity ==> dp[k] == Table(values, weights, i - 1, k)
    {
      var j := capacity;
      while j >= weights[i]
        invariant -1 <= j <= capacity && |dp| == capacity + 1
        invariant forall k :: 0 <= k <= capacity ==>
          dp[k] == if k > j then Table(values, weights, i, k) else Table(values, weights, i - 1, k)
      {
        dp := dp[j := Max(dp[j], values[i] + dp[j - weights[i]])];
        j := j - 1;
      }
      i := i + 1;
    }
    TableOptimal(values, weights, |values| - 1, capacity);
    r := Success(dp[capacity]);
  }

  // ---------------------------------------------------------------------------
  // Option 3: the memoised recursion

  /** Every cached (w, item) holds helper's value for it. */
  ghost predicate CacheSound(values: seq<int>, weights: seq<int>, cache: map<(int, int), int>)
    requires |values| == |weights|
  {
    forall key :: key in cache ==>
      key.0 >= 0 && 1 <= key.1 <= |values| && cache[key] == Rec(values, weights, key.0, key.1)
  }

  /** helper(w, item, cache): look up, or compute and store, the best value of items
      item..n-1 within capacity w. The cache dictionary is threaded through as a value. */
  method Helper(values: seq<int>, weights: seq<int>, w: nat, item: nat, cache: map<(int, int), int>)
    returns (r: int, cache': map<(int, int), int>)
    requires WellFormed(values, weights) && 1 <= item <= |values|
    requires CacheSound(values, weights, cache)
    ensures r == Rec(values, weights, w, item)
    ensures CacheSound(values, weights, cache') && (w, item) in cache' && cache.Keys <= cache'.Keys
    decreases |values| - item
  {
    if (w, item) in cache {
      return cache[(w, item)], cache;
    }
    if w == 0 || item == |values| {
      return 0, cache[(w, item) := 0];
    }
    if weights[item] > w {
      var skip;
      skip, cache' := Helper(values, weights, w, item + 1, cache);
      return skip, cache'[(w, item) := skip];
    }
    var rest, exclude;
    rest, cache' := Helper(values, weights, w - weights[item], item + 1, cache);
    var including := values[item] + rest;
    exclude, cache' := Helper(values, weights, w, item + 1, cache');
    r := Max(including, exclude);
    cache' := cache'[(w, item) := r];
  }

  /** knapsack_recursive: helper(capacity, 1) from an empty cache. */
  method KnapsackRecursive(capacity: int, values: seq<int>, weights: seq<int>)
    returns (r: Result<int, KnapsackError>)
    requires WellFormed(values, weights)
    ensures r.Failure? <==> BadInput(capacity, values, weights)
    ensures r.Failure? ==> r.error == InvalidInput
    ensures r.Success? ==> r.value == Rec(values, weights, capacity, 1)
    ensures r.Success? ==> r.value == Table(values, weights, |values| - 1, capacity)
    ensures r.Success? ==> IsOptimum(values, weights, 1, |values| - 1, capacity, r.value)
  {
    if capacity < 0 || values == [] || weights == [] {
      return Failure(InvalidInput);
    }
    var maxVal, _ := Helper(values, weights, capacity, 1, map[]);
    TableMatchesRecursion(values, weights, capacity);
    RecOptimal(values, weights, capacity, 1);
    r := Success(maxVal);
  }
}
