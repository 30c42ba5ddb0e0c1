/** Greedy scheduling to minimise the weighted sum of completion times
    (weightedCompletionTimes.py). */
module WeightedCompletion {

  /** A job with a weight and a length. */
  datatype Job = Job(weight: int, length: int)

  /** A precedence relation used to order jobs: before(a, b) says a may come before b. */
  ghost predicate Total(before: (Job, Job) -> bool)
  {
    forall a, b :: before(a, b) || before(b, a)
  }

  /** Every adjacent pair respects the precedence relation. */
  ghost predicate SortedBy(s: seq<Job>, before: (Job, Job) -> bool)
  {
    forall i :: 0 <= i < |s| - 1 ==> before(s[i], s[i + 1])
  }

  /** Insert x in front of the first element it may precede. */
  function Insert(x: Job, s: seq<Job>, before: (Job, Job) -> bool): (r: seq<Job>)
    ensures multiset(r) == multiset(s) + multiset{x}
    ensures |r| == |s| + 1
    ensures r[0] == x || (s != [] && r[0] == s[0])
  {
    if s == [] || before(x, s[0]) then [x] + s
    else
      assert s == [s[0]] + s[1..];
      [s[0]] + Insert(x, s[1..], before)
  }

  /** A stable sort for a descending key: an element goes in front of every later
      element whose key it equals, which is what Python's sorted(..., reverse=True)
      produces. */
  function Sort(s: seq<Job>, before: (Job, Job) -> bool): (r: seq<Job>)
    ensures multiset(r) == multiset(s)
    ensures |r| == |s|
  {
    if s == [] then []
    else
      assert s == [s[0]] + s[1..];
      Insert(s[0], Sort(s[1..], before), before)
  }

  lemma {:induction false} InsertSorted(x: Job, s: seq<Job>, before: (Job, Job) -> bool)
    requires Total(before) && SortedBy(s, before)
    ensures SortedBy(Insert(x, s, before), before)
  {
    if s == [] || before(x, s[0]) {
    } else {
      assert before(s[0], x);
      InsertSorted(x, s[1..], before);
      var t := Insert(x, s[1..], before);
      assert t[0] == x || t[0] == s[1];
      var r := [s[0]] + t;
      forall i | 0 <= i < |r| - 1
        ensures before(r[i], r[i + 1])
      {
        if i > 0 {
          assert r[i] == t[i - 1] && r[i + 1] == t[i];
        }
      }
    }
  }

  lemma {:induction false} SortSorted(s: seq<Job>, before: (Job, Job) -> bool)
    requires Total(before)
    ensures SortedBy(Sort(s, before), before)
  {
    if s != [] {
      SortSorted(s[1..], before);
      InsertSorted(s[0], Sort(s[1..], before), before);
    }
  }

  /** The key of orderByDifference, (w - l, w), compared lexicographically, descending. */
  predicate DifferenceBefore(a: Job, b: Job)
  {
    a.weight - a.length > b.weight - b.length
    || (a.weight - a.length == b.weight - b.length && a.weight >= b.weight)
  }

  /** The key of orderByRatio, w / l descending, compared exactly by cross
      multiplication (lengths are positive). */
  predicate RatioBefore(a: Job, b: Job)
  {
    a.weight * b.length >= b.weight * a.length
  }

  function OrderByDifference(arr: seq<Job>): (r: seq<Job>)
    ensures multiset(r) == multiset(arr)
    ensures forall i :: 0 <= i < |r| - 1 ==> DifferenceBefore(r[i], r[i + 1])
  {
    SortSorted(arr, DifferenceBefore);
    Sort(arr, DifferenceBefore)
  }

  ghost predicate PositiveLengths(arr: seq<Job>)
  {
    forall k :: 0 <= k < |arr| ==> arr[k].length > 0
  }

  /** orderByRatio divides by every length, so it needs them non-zero; with positive
      lengths the schedule is non-increasing in w/l between any two positions. */
  function OrderByRatio(arr: seq<Job>): (r: seq<Job>)
    requires PositiveLengths(arr)
    ensures multiset(r) == multiset(arr)
    ensures forall i :: 0 <= i < |r| - 1 ==> RatioBefore(r[i], r[i + 1])
    ensures forall i, j :: 0 <= i < j < |r| ==> RatioBefore(r[i], r[j])
  {
    SortSorted(arr, RatioBefore);
    var r := Sort(arr, RatioBefore);
    assert PositiveLengths(r) by {
      forall k | 0 <= k < |r| ensures r[k].length > 0 {
        assert r[k] in multiset(arr);
      }
    }
    RatioSortedGlobally(r);
    r
  }

  /** Adjacent order in w/l extends to order between any two positions. */
  lemma {:induction false} RatioSortedGlobally(s: seq<Job>)
    requires PositiveLengths(s)
    requires forall k :: 0 <= k < |s| - 1 ==> RatioBefore(s[k], s[k + 1])
    ensures forall i, j :: 0 <= i < j < |s| ==> RatioBefore(s[i], s[j])
  {
    if |s| >= 2 {
      var t := s[1..];
      assert forall k :: 0 <= k < |t| ==> t[k] == s[k + 1];
      RatioSortedGlobally(t);
      forall i, j | 0 <= i < j < |s|
        ensures RatioBefore(s[i], s[j])
      {
        if i > 0 {
          assert RatioBefore(t[i - 1], t[j - 1]);
        } else if j > 1 {
          assert RatioBefore(t[0], t[j - 1]);
          RatioTransitive(s[0], s[1], s[j]);
        }
      }
    }
  }

  /** Comparing ratios by cross multiplication is transitive for positive lengths, so
      an adjacent-sorted schedule is non-increasing in w/l overall. */
  lemma RatioTransitive(a: Job, b: Job, c: Job)
    requires a.length > 0 && b.length > 0 && c.length > 0
    requires RatioBefore(a, b) && RatioBefore(b, c)
    ensures RatioBefore(a, c)
  {
    var x := a.weight * b.length * c.length;
    var y := b.weight * a.length * c.length;
    var z := c.weight * b.length * a.length;
    assert x >= y by {
      assert a.weight * b.length >= b.weight * a.length;
      MulRight(a.weight * b.length, b.weight * a.length, c.length);
    }
    assert y >= z by {
      MulRight(b.weight * c.length, c.weight * b.length, a.length);
      assert y == (b.weight * c.length) * a.length;
      assert z == (c.weight * b.length) * a.length;
    }
    assert (a.weight * c.length) * b.length >= (c.weight * a.length) * b.length;
    if a.weight * c.length < c.weight * a.length {
      MulRightStrict(a.weight * c.length, c.weight * a.length, b.length);
    }
  }

  lemma MulRight(p: int, q: int, k: int)
    requires p >= q && k >= 0
    ensures p * k >= q * k
  {
    assert (p - q) * k >= 0;
  }

  lemma MulRightStrict(p: int, q: int, k: int)
    requires p < q && k > 0
    ensures p * k < q * k
  {
    assert (q - p) * k > 0;
  }

  /** Sum of the lengths of the jobs. */
  function LengthSum(s: seq<Job>): int
  {
    if s == [] then 0 else s[0].length + LengthSum(s[1..])
  }

  /** Sum of the weights of the jobs. */
  function WeightSum(s: seq<Job>): int
  {
    if s == [] then 0 else s[0].weight + WeightSum(s[1..])
  }

  /** The weighted sum of completion times of a schedule: the first job finishes at its
      own length and delays every later job by that length. */
  function WeightedSum(s: seq<Job>): int
  {
    if s == [] then 0
    else s[0].weight * s[0].length + s[0].length * WeightSum(s[1..]) + WeightedSum(s[1..])
  }

  lemma {:induction false} LengthSumSnoc(s: seq<Job>, j: Job)
    ensures LengthSum(s + [j]) == LengthSum(s) + j.length
  {
    if s != [] {
      assert (s + [j])[1..] == s[1..] + [j];
      LengthSumSnoc(s[1..], j);
    }
  }

  lemma {:induction false} WeightSumSnoc(s: seq<Job>, j: Job)
    ensures WeightSum(s + [j]) == WeightSum(s) + j.weight
  {
    if s != [] {
      assert (s + [j])[1..] == s[1..] + [j];
      WeightSumSnoc(s[1..], j);
    }
  }

  /** Appending a job adds its weight times its completion time, the total length. */
  lemma {:induction false} WeightedSumSnoc(s: seq<Job>, j: Job)
    ensures WeightedSum(s + [j]) == WeightedSum(s) + j.weight * LengthSum(s + [j])
  {
    LengthSumSnoc(s, j);
    if s != [] {
      var t := s[1..];
      assert (s + [j])[1..] == t + [j];
      WeightedSumSnoc(t, j);
      WeightSumSnoc(t, j);
      LengthSumSnoc(t, j);
      SnocArith(s[0].weight, s[0].length, WeightSum(t), LengthSum(t), WeightedSum(t),
                j.weight, j.length);
    }
  }

  /** The rearrangement behind WeightedSumSnoc, on plain integers. */
  lemma SnocArith(hw: int, hl: int, w: int, l: int, ws: int, jw: int, jl: int)
    ensures hw * hl + hl * (w + jw) + (ws + jw * (l + jl))
            == (hw * hl + hl * w + ws) + jw * (hl + l + jl)
  {
    assert hl * (w + jw) == hl * w + hl * jw;
    assert jw * (hl + l + jl) == jw * hl + jw * (l + jl);
  }

  /** Swapping two adjacent jobs changes the weighted sum by exactly the exchange term
      w1*l2 - w2*l1 (s[i] is job 1, s[i+1] job 2). */
  lemma {:induction false} AdjacentSwap(s: seq<Job>, i: nat)
    requires i + 1 < |s|
    ensures WeightedSum(s[..i] + [s[i + 1], s[i]] + s[i + 2..])
            == WeightedSum(s) + s[i].weight * s[i + 1].length - s[i + 1].weight * s[i].length
  {
    var t := s[..i] + [s[i + 1], s[i]] + s[i + 2..];
    if i == 0 {
      assert s == [s[0], s[1]] + s[2..];
      assert t == [s[1], s[0]] + s[2..];
      SwapFront(s[0], s[1], s[2..]);
    } else {
      var u := s[1..];
      AdjacentSwap(u, i - 1);
      var tu := u[..i - 1] + [u[i], u[i - 1]] + u[i + 1..];
      assert t == [s[0]] + tu;
      assert s == [s[0]] + u;
      assert u == u[..i - 1] + [u[i - 1], u[i]] + u[i + 1..];
      WeightSumSwap(u[..i - 1], u[i - 1], u[i], u[i + 1..]);
      assert s[i] == u[i - 1] && s[i + 1] == u[i];
    }
  }

  /** An adjacent swap leaves the total weight as it was. */
  lemma WeightSumSwap(p: seq<Job>, a: Job, b: Job, q: seq<Job>)
    ensures WeightSum(p + [b, a] + q) == WeightSum(p + [a, b] + q)
  {
    var x, y := [a, b] + q, [b, a] + q;
    assert p + [a, b] + q == p + x && p + [b, a] + q == p + y;
    WeightSumAppend(p, x);
    WeightSumAppend(p, y);
    assert x[1..] == [b] + q && x[1..][1..] == q;
    assert y[1..] == [a] + q && y[1..][1..] == q;
  }

  /** The two-job case of AdjacentSwap. */
  lemma SwapFront(a: Job, b: Job, rest: seq<Job>)
    ensures WeightedSum([b, a] + rest)
            == WeightedSum([a, b] + rest) + a.weight * b.length - b.weight * a.length
  {
    var s, t := [a, b] + rest, [b, a] + rest;
    assert s[1..] == [b] + rest && s[1..][1..] == rest;
    assert t[1..] == [a] + rest && t[1..][1..] == rest;
    SwapArith(a.weight, a.length, b.weight, b.length, WeightSum(rest), WeightedSum(rest));
  }

  /** The rearrangement behind SwapFront, on plain integers. */
  lemma SwapArith(aw: int, al: int, bw: int, bl: int, w: int, ws: int)
    ensures bw * bl + bl * (aw + w) + (aw * al + al * w + ws)
            == aw * al + al * (bw + w) + (bw * bl + bl * w + ws) + aw * bl - bw * al
  {
    assert bl * (aw + w) == bl * aw + bl * w;
    assert al * (bw + w) == al * bw + al * w;
    assert bl * aw == aw * bl && al * bw == bw * al;
  }

  lemma {:induction false} WeightSumAppend(p: seq<Job>, q: seq<Job>)
    ensures WeightSum(p + q) == WeightSum(p) + WeightSum(q)
  {
    if p == [] {
      assert p + q == q;
    } else {
      assert (p + q)[1..] == p[1..] + q;
      WeightSumAppend(p[1..], q);
    }
  }

  /** An adjacent swap of a ratio-sorted schedule never lowers its weighted sum: the
      exchange argument behind choosing orderByRatio. */
  lemma RatioOrderLocallyOptimal(s: seq<Job>, i: nat)
    requires i + 1 < |s|
    requires forall k :: 0 <= k < |s| - 1 ==> RatioBefore(s[k], s[k + 1])
    ensures WeightedSum(s) <= WeightedSum(s[..i] + [s[i + 1], s[i]] + s[i + 2..])
  {
    AdjacentSwap(s, i);
    assert s[i].weight * s[i + 1].length >= s[i + 1].weight * s[i].length by {
      assert RatioBefore(s[i], s[i + 1]);
    }
  }

  /** One step of the minWeightedSum loop: job k finishes at the total length of jobs
      0..k and adds its weight times that time. */
  lemma ScheduleStep(s: seq<Job>, k: nat)
    requires k < |s|
    ensures LengthSum(s[..k + 1]) == LengthSum(s[..k]) + s[k].length
    ensures WeightedSum(s[..k + 1]) == WeightedSum(s[..k]) + LengthSum(s[..k + 1]) * s[k].weight
  {
    assert s[..k + 1] == s[..k] + [s[k]];
    LengthSumSnoc(s[..k], s[k]);
    WeightedSumSnoc(s[..k], s[k]);
  }

  /** minWeightedSum: run the jobs in orderByRatio order, accumulating each completion
      time times its weight. */
  method MinWeightedSum(arr: seq<Job>) returns (totalSum: int)
    requires PositiveLengths(arr)
    ensures totalSum == WeightedSum(OrderByRatio(arr))
  {
    var orderedArr := OrderByRatio(arr);
    var completionTime := 0;
    totalSum := 0;
    var k := 0;
    while k < |orderedArr|
      invariant 0 <= k <= |orderedArr|
      invariant completionTime == LengthSum(orderedArr[..k])
      invariant totalSum == WeightedSum(orderedArr[..k])
    {
      var job := orderedArr[k];
      ScheduleStep(orderedArr, k);
      completionTime := completionTime + job.length;
      totalSum := totalSum + completionTime * job.weight;
      k := k + 1;
    }
    assert orderedArr[..k] == orderedArr;
  }
}
