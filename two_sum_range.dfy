/** The 2-SUM variant of 2sumRange.py: the number of targets t in [-T, T] that are the
    sum of two different values of the input. The input is sorted and, for each value,
    binary search finds the entries whose sum with it lands in the target range. */
module TwoSumRange {
  import opened SortedSeqs

  /** bisect_left on s[lo..hi]: the first position whose entry is not below x, given that
      everything before lo is below x and everything from hi on is not. */
  function BisectLeft(s: seq<int>, x: int, lo: nat, hi: nat): (k: nat)
    requires Sorted(s) && lo <= hi <= |s|
    requires forall i :: 0 <= i < lo ==> s[i] < x
    requires forall i :: hi <= i < |s| ==> s[i] >= x
    ensures lo <= k <= hi
    ensures forall i :: 0 <= i < k ==> s[i] < x
    ensures forall i :: k <= i < |s| ==> s[i] >= x
    decreases hi - lo
  {
    if lo >= hi then lo
    else
      var mid := (lo + hi) / 2;
      if s[mid] < x then BisectLeft(s, x, mid + 1, hi) else BisectLeft(s, x, lo, mid)
  }

  /** bisect_right on s[lo..hi]: the first position whose entry is above x. */
  function BisectRight(s: seq<int>, x: int, lo: nat, hi: nat): (k: nat)
    requires Sorted(s) && lo <= hi <= |s|
    requires forall i :: 0 <= i < lo ==> s[i] <= x
    requires forall i :: hi <= i < |s| ==> s[i] > x
    ensures lo <= k <= hi
    ensures forall i :: 0 <= i < k ==> s[i] <= x
    ensures forall i :: k <= i < |s| ==> s[i] > x
    decreases hi - lo
  {
    if lo >= hi then lo
    else
      var mid := (lo + hi) / 2;
      if x < s[mid] then BisectRight(s, x, lo, mid) else BisectRight(s, x, mid + 1, hi)
  }

  /** The targets of the header: t in [-T, T] with distinct values x, y of the input and
      x + y == t. */
  ghost function Targets(input: seq<int>, targetRange: int): set<int>
  {
    set t | -targetRange <= t <= targetRange && IsSum(input, t)
  }

  ghost predicate IsSum(input: seq<int>, t: int)
  {
    exists x, y :: x in input && y in input && x != y && x + y == t
  }

  /** The targets found once the values at positions before i have been visited. */
  ghost function Found(numbers: seq<int>, targetRange: int, i: nat): set<int>
  {
    set t | -targetRange <= t <= targetRange && IsSumBefore(numbers, i, t)
  }

  /** t is the sum of two different values, the first at a position before i. */
  ghost predicate IsSumBefore(numbers: seq<int>, i: nat, t: int)
  {
    exists a, b :: 0 <= a < i && a < |numbers| && 0 <= b < |numbers|
      && numbers[a] != numbers[b] && numbers[a] + numbers[b] == t
  }

  /** The new sums the inner loop collects for the value at position i, up to j. */
  ghost function Sums(numbers: seq<int>, i: nat, lo: nat, j: int): set<int>
    requires i < |numbers| && j <= |numbers|
    decreases j - lo
  {
    if j <= lo then {}
    else
      Sums(numbers, i, lo, j - 1)
        + (if numbers[j - 1] != numbers[i] then {numbers[i] + numbers[j - 1]} else {})
  }

  /** The members of Sums: the sums of the value at i with a different value at a
      position in [lo, j). */
  lemma {:induction false} SumsMembers(numbers: seq<int>, i: nat, lo: nat, j: int, t: int)
    requires i < |numbers| && j <= |numbers|
    ensures t in Sums(numbers, i, lo, j) <==>
      exists b :: lo <= b < j && numbers[b] != numbers[i] && t == numbers[i] + numbers[b]
    decreases j - lo
  {
    if j > lo {
      SumsMembers(numbers, i, lo, j - 1, t);
    }
  }

  /** Visiting position i adds exactly the sums of its value with the entries between
      the two bisection bounds. */
  lemma VisitStep(numbers: seq<int>, targetRange: int, i: nat, lower: nat, upper: nat)
    requires i < |numbers| && lower <= |numbers| && upper <= |numbers|
    requires forall b :: 0 <= b < |numbers| ==>
      (lower <= b < upper <==> -targetRange - numbers[i] <= numbers[b] <= targetRange - numbers[i])
    ensures Found(numbers, targetRange, i + 1)
      == Found(numbers, targetRange, i) + Sums(numbers, i, lower, upper)
  {
    var before := Found(numbers, targetRange, i);
    var after := Found(numbers, targetRange, i + 1);
    var sums := Sums(numbers, i, lower, upper);
    forall t | t in after ensures t in before + sums {
      SumsMembers(numbers, i, lower, upper, t);
      var a, b :| 0 <= a < i + 1 && a < |numbers| && 0 <= b < |numbers|
        && numbers[a] != numbers[b] && numbers[a] + numbers[b] == t;
      if a == i {
        assert lower <= b < upper;
        assert t == numbers[i] + numbers[b];
      }
    }
    forall t | t in before + sums ensures t in after {
      SumsMembers(numbers, i, lower, upper, t);
      if t in sums {
        var b :| lower <= b < upper && numbers[b] != numbers[i] && t == numbers[i] + numbers[b];
        assert -targetRange <= t <= targetRange;
      }
    }
  }

  /** Every target is found once all positions have been visited, whatever the order of
      the values. */
  lemma FoundAll(input: seq<int>, numbers: seq<int>, targetRange: int)
    requires multiset(numbers) == multiset(input)
    ensures Found(numbers, targetRange, |numbers|) == Targets(input, targetRange)
  {
    forall t ensures IsSumBefore(numbers, |numbers|, t) <==> IsSum(input, t) {
      SumOfPositions(input, numbers, t);
    }
  }

  /** A sum of two different values, located by positions or by membership. */
  lemma SumOfPositions(input: seq<int>, numbers: seq<int>, t: int)
    requires multiset(numbers) == multiset(input)
    ensures IsSumBefore(numbers, |numbers|, t) <==> IsSum(input, t)
  {
    if IsSumBefore(numbers, |numbers|, t) {
      var a, b :| 0 <= a < |numbers| && a < |numbers| && 0 <= b < |numbers|
        && numbers[a] != numbers[b] && numbers[a] + numbers[b] == t;
      assert numbers[a] in multiset(input) && numbers[b] in multiset(input);
      assert numbers[a] in input && numbers[b] in input;
    }
    if IsSum(input, t) {
      var x, y :| x in input && y in input && x != y && x + y == t;
      assert x in multiset(numbers) && y in multiset(numbers);
      var a :| 0 <= a < |numbers| && numbers[a] == x;
      var b :| 0 <= b < |numbers| && numbers[b] == y;
    }
  }

  /** There are 2T + 1 possible targets at most. */
  lemma {:induction false} RangeSize(s: set<int>, lo: int, hi: int)
    requires forall t :: t in s ==> lo <= t <= hi
    ensures |s| <= if hi < lo then 0 else hi - lo + 1
    decreases hi - lo
  {
    if hi < lo {
      assert forall t :: t !in s;
      assert s == {};
    } else {
      RangeSize(s - {hi}, lo, hi - 1);
    }
  }

  /** One more position adds its sum to Sums. */
  lemma SumsNext(numbers: seq<int>, i: nat, lo: nat, j: nat)
    requires i < |numbers| && lo <= j < |numbers|
    ensures Sums(numbers, i, lo, j + 1)
      == Sums(numbers, i, lo, j) + (if numbers[j] != numbers[i] then {numbers[i] + numbers[j]} else {})
  {
  }

  /** The body of the inner loop: the sum of val and other is added to seen and counted
      when the two values differ and the sum is new. */
  method AddSum(seen: set<int>, count: nat, val: int, other: int)
    returns (seen': set<int>, count': nat)
    requires count == |seen|
    ensures seen' == seen + (if other != val then {val + other} else {})
    ensures count' == |seen'|
  {
    var sum := val + other;
    seen', count' := seen, count;
    if sum !in seen && val != other {
      seen' := seen + {sum};
      count' := count + 1;
    }
  }

  /** The inner loop of twoSumRange over j in [lowerBound, upperBound) for the value at
      position i: every new sum of two different values is added to seen and counted. */
  method CollectSums(numbers: seq<int>, i: nat, lowerBound: nat, upperBound: nat,
                     seen: set<int>, count: nat)
    returns (seen': set<int>, count': nat)
    requires i < |numbers| && lowerBound <= |numbers| && upperBound <= |numbers|
    requires count == |seen|
    ensures seen' == seen + Sums(numbers, i, lowerBound, upperBound)
    ensures count' == |seen'|
  {
    seen', count' := seen, count;
    var val := numbers[i];
    if upperBound < lowerBound {
      return;
    }
    var j := lowerBound;
    while j < upperBound
      invariant lowerBound <= j <= upperBound
      invariant seen' == seen + Sums(numbers, i, lowerBound, j)
      invariant count' == |seen'|
    {
      seen', count' := AddSum(seen', count', val, numbers[j]);
      SumsNext(numbers, i, lowerBound, j);
      j := j + 1;
    }
  }

  /** twoSumRange: sort the numbers, and for each value add the new sums with the entries
      that bisection places in [-T - val, T - val]. The count is the number of targets. */
  method Run(input: seq<int>, targetRange: int) returns (count: nat)
    ensures count == |Targets(input, targetRange)|
    ensures count <= if targetRange < 0 then 0 else 2 * targetRange + 1
  {
    var numbers := SortedOf(input);
    count := 0;
    var seen: set<int> := {};
    var i := 0;
    while i < |numbers|
      invariant 0 <= i <= |numbers|
      invariant seen == Found(numbers, targetRange, i) && count == |seen|
    {
      var val := numbers[i];
      var maxVal := targetRange - val;
      var minVal := -targetRange - val;
      var upperBound := BisectRight(numbers, maxVal, 0, |numbers|);
      var lowerBound := BisectLeft(numbers, minVal, 0, |numbers|);
      VisitStep(numbers, targetRange, i, lowerBound, upperBound);
      seen, count := CollectSums(numbers, i, lowerBound, upperBound, seen, count);
      i := i + 1;
    }
    FoundAll(input, numbers, targetRange);
    RangeSize(seen, -targetRange, targetRange);
  }
}
