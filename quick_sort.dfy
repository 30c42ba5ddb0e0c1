/** The facts about ranges of a sequence that the quicksort of quickSort.py relies on:
    exchanges, rearrangement within a range, the partition sweep and the worst-case
    count. */
module QuickSortRanges {

  ghost predicate Sorted(s: seq<int>)
  {
    forall i, j :: 0 <= i < j < |s| ==> s[i] <= s[j]
  }

  /** s with the entries at i and j exchanged. */
  function Swapped(s: seq<int>, i: nat, j: nat): seq<int>
    requires i < |s| && j < |s|
  {
    s[i := s[j]][j := s[i]]
  }

  /** s is start with entries moved around inside [l, r) only. */
  ghost predicate Rearranged(s: seq<int>, start: seq<int>, l: nat, r: nat)
  {
    |s| == |start| && multiset(s) == multiset(start)
    && (forall k :: 0 <= k < |s| && !(l <= k < r) ==> s[k] == start[k])
  }

  lemma SwappedMultiset(s: seq<int>, i: nat, j: nat)
    requires i < |s| && j < |s|
    ensures multiset(Swapped(s, i, j)) == multiset(s)
  {
    var t := s[i := s[j]];
    assert multiset(t) == multiset(s) - multiset{s[i]} + multiset{s[j]};
    assert multiset(t[j := s[i]]) == multiset(t) - multiset{t[j]} + multiset{s[i]};
  }

  /** An exchange inside [l, r) keeps a rearrangement within [l, r). */
  lemma SwapRearranged(s: seq<int>, start: seq<int>, l: nat, r: nat, i: nat, j: nat)
    requires Rearranged(s, start, l, r) && l <= i < r && l <= j < r && r <= |s|
    ensures Rearranged(Swapped(s, i, j), start, l, r)
  {
    SwappedMultiset(s, i, j);
  }

  /** A rearrangement within [l, r) keeps the multiset of [l, r). */
  lemma RearrangedRange(s: seq<int>, start: seq<int>, l: nat, r: nat)
    requires Rearranged(s, start, l, r) && l <= r <= |s|
    ensures multiset(s[l..r]) == multiset(start[l..r])
  {
    assert s[..l] == start[..l] && s[r..] == start[r..];
    var p := multiset(s[..l]) + multiset(s[r..]);
    ThreeParts(s, l, r);
    ThreeParts(start, l, r);
    Cancel(multiset(s[l..r]), multiset(start[l..r]), p);
  }

  /** The values of s are those of its three pieces around l and r. */
  lemma ThreeParts(s: seq<int>, l: nat, r: nat)
    requires l <= r <= |s|
    ensures multiset(s) == multiset(s[l..r]) + (multiset(s[..l]) + multiset(s[r..]))
  {
    assert s == s[..l] + s[l..r] + s[r..];
  }

  lemma Cancel(a: multiset<int>, b: multiset<int>, p: multiset<int>)
    requires a + p == b + p
    ensures a == b
  {
    assert a == (a + p) - p;
    assert b == (b + p) - p;
  }

  /** Rearranging within a wider range, twice, is one rearrangement. */
  lemma RearrangedTrans(a: seq<int>, b: seq<int>, c: seq<int>, l: nat, r: nat, l': nat, r': nat)
    requires Rearranged(a, b, l', r') && Rearranged(b, c, l, r) && l <= l' && r' <= r
    ensures Rearranged(a, c, l, r)
  {
  }

  /** The median of three values, as the one that is neither the minimum nor the maximum. */
  function Median3(a: int, b: int, c: int): int
  {
    var lo := if a <= b && a <= c then a else if b <= c then b else c;
    var hi := if a >= b && a >= c then a else if b >= c then b else c;
    a + b + c - lo - hi
  }

  /** The worst-case total of the comparison count on a range of length m: m(m-1)/2. */
  function Worst(m: nat): nat
  {
    if m == 0 then 0 else Worst(m - 1) + (m - 1)
  }

  /** Splitting m = a + b + 1 around a pivot never exceeds the worst case. */
  lemma {:induction false} WorstSplit(a: nat, b: nat)
    ensures Worst(a) + Worst(b) + (a + b) <= Worst(a + b + 1)
  {
    if b > 0 {
      WorstSplit(a, b - 1);
    }
  }

  /** A range of m entries whose two sides cost within their own worst cases costs, with
      its own m - 1, within the worst case for m. */
  lemma WorstStep(m: nat, a: nat, b: nat, ca: nat, cb: nat)
    requires a + b + 1 == m && ca <= Worst(a) && cb <= Worst(b)
    ensures m - 1 + ca + cb <= Worst(m)
  {
    WorstSplit(a, b);
  }

  /** The index getMedian picks on a range holding t: among the first entry, the middle one
      at (|t| - 1) / 2 and the last one, the one whose value is the median of the three. */
  function MedianAt(t: seq<int>): (m: nat)
    requires |t| >= 2
    ensures m < |t| && t[m] == Median3(t[0], t[(|t| - 1) / 2], t[|t| - 1])
  {
    var x, y, z := 0, (|t| - 1) / 2, |t| - 1;
    if t[x] > t[y] then
      if t[x] < t[z] then x else if t[y] > t[z] then y else z
    else
      if t[x] > t[z] then x else if t[y] < t[z] then y else z
  }

  /** The partition sweep on a range holding t, with the pivot at 0: j looks at each later
      entry in turn, and one below the pivot is exchanged with the entry at i, the first not
      below it. The result is the range afterwards and the final i. */
  function SweepFrom(t: seq<int>, i: nat, j: nat, pivot: int): (r: (seq<int>, nat))
    requires 1 <= i <= j <= |t|
    ensures |r.0| == |t| && i <= r.1 <= |t|
    decreases |t| - j
  {
    if j == |t| then (t, i)
    else if t[j] < pivot then SweepFrom(Swapped(t, i, j), i + 1, j + 1, pivot)
    else SweepFrom(t, i, j + 1, pivot)
  }

  /** The partition step on a range holding t: the median of three to the front, the sweep,
      and the pivot exchanged into place. The result is the range afterwards and the
      pivot's position. */
  function PartitionOf(t: seq<int>): (r: (seq<int>, nat))
    requires |t| >= 2
    ensures |r.0| == |t| && r.1 < |t|
  {
    var t1 := Swapped(t, 0, MedianAt(t));
    var swept := SweepFrom(t1, 1, 1, t1[0]);
    (Swapped(swept.0, 0, swept.1 - 1), swept.1 - 1)
  }

  /** The comparisons quickSort counts on a range holding t: |t| - 1 at the call on a range
      of two entries or more, plus those of the recursive calls on the two sides of the
      pivot that the partition leaves. */
  function Sides(t: seq<int>): (r: (seq<int>, seq<int>))
    requires |t| >= 2
    ensures |r.0| + |r.1| + 1 == |t|
  {
    var parted := PartitionOf(t);
    (parted.0[..parted.1], parted.0[parted.1 + 1..])
  }

  function Comparisons(t: seq<int>): nat
    decreases |t|
  {
    if |t| <= 1 then 0
    else |t| - 1 + Comparisons(Sides(t).0) + Comparisons(Sides(t).1)
  }

  /** Every range of m > 1 entries costs at least the m - 1 comparisons of its own call,
      and no range costs more than m(m - 1)/2. */
  lemma {:induction false} ComparisonsBounds(t: seq<int>)
    ensures |t| > 1 ==> |t| - 1 <= Comparisons(t)
    ensures Comparisons(t) <= Worst(|t|)
    decreases |t|
  {
    if |t| > 1 {
      var sides := Sides(t);
      ComparisonsSplit(t);
      ComparisonsBounds(sides.0);
      ComparisonsBounds(sides.1);
      WorstStep(|t|, |sides.0|, |sides.1|, Comparisons(sides.0), Comparisons(sides.1));
    }
  }

  /** The three stages of the partition step make up PartitionOf. */
  lemma PartitionSteps(t: seq<int>, t1: seq<int>, t2: seq<int>, i: nat, t3: seq<int>)
    requires |t| >= 2 && t1 == Swapped(t, 0, MedianAt(t))
    requires t2 == SweepFrom(t1, 1, 1, t1[0]).0 && i == SweepFrom(t1, 1, 1, t1[0]).1
    requires t3 == Swapped(t2, 0, i - 1)
    ensures t3 == PartitionOf(t).0 && i - 1 == PartitionOf(t).1
  {
  }

  /** The exchange that ends the partition step, seen on the range [l, r) of the whole
      array: the range becomes the partition of its original contents t. */
  lemma PartitionEnd(t: seq<int>, t1: seq<int>, before: seq<int>, after: seq<int>, l: nat, r: nat, i: nat)
    requires l < i <= r <= |before| && |t| >= 2 && t1 == Swapped(t, 0, MedianAt(t))
    requires before[l..r] == SweepFrom(t1, 1, 1, t1[0]).0 && i - l == SweepFrom(t1, 1, 1, t1[0]).1
    requires after == Swapped(before, l, i - 1)
    ensures after[l..r] == PartitionOf(t).0 && i - 1 - l == PartitionOf(t).1
  {
    SwapSlice(before, l, r, l, i - 1);
    PartitionSteps(t, t1, before[l..r], i - l, after[l..r]);
  }

  /** One level of the count: the call's own comparisons and those of the two sides. */
  lemma ComparisonsSplit(t: seq<int>)
    requires |t| >= 2
    ensures Comparisons(t) == |t| - 1 + Comparisons(Sides(t).0) + Comparisons(Sides(t).1)
  {
  }

  /** The sides of the partition of t, from its outcome u with the pivot at p. */
  lemma SidesOf(t: seq<int>, u: seq<int>, p: nat)
    requires |t| >= 2 && u == PartitionOf(t).0 && p == PartitionOf(t).1
    ensures p < |u| && Sides(t).0 == u[..p] && Sides(t).1 == u[p + 1..]
  {
  }

  /** The count of a range holding t, from the two sides its partition leaves inside
      [l, r) of a larger sequence, the pivot at i - 1. */
  lemma CountSplit(t: seq<int>, parted: seq<int>, l: nat, i: nat, r: nat)
    requires l < i <= r <= |parted| && |t| >= 2
    requires parted[l..r] == PartitionOf(t).0 && i - 1 - l == PartitionOf(t).1
    ensures Comparisons(t) == |t| - 1 + Comparisons(parted[l..i - 1]) + Comparisons(parted[i..r])
  {
    SidesAt(t, parted, l, i, r);
    ComparisonsSplit(t);
  }

  /** The sides of the partition of t, seen in [l, r) of a larger sequence. */
  lemma SidesAt(t: seq<int>, parted: seq<int>, l: nat, i: nat, r: nat)
    requires l < i <= r <= |parted| && |t| >= 2
    requires parted[l..r] == PartitionOf(t).0 && i - 1 - l == PartitionOf(t).1
    ensures Sides(t).0 == parted[l..i - 1] && Sides(t).1 == parted[i..r]
  {
    SidesOf(t, parted[l..r], i - 1 - l);
    SliceOfSlice(parted, l, i, r);
  }

  /** The parts of the slice [l, r) before and after position i - 1 are slices of the whole. */
  lemma SliceOfSlice(s: seq<int>, l: nat, i: nat, r: nat)
    requires l < i <= r <= |s|
    ensures s[l..r][..i - 1 - l] == s[l..i - 1] && s[l..r][i - l..] == s[i..r]
  {
  }

  /** One step of SweepFrom on the range [l, r) of a larger sequence, when the entry at j
      is below the pivot and is exchanged with the one at i. */
  lemma SweepFromSwap(s: seq<int>, t: seq<int>, l: nat, r: nat, i: nat, j: nat, pivot: int)
    requires l + 1 <= i <= j < r <= |s| && s[j] < pivot && t == Swapped(s, i, j)
    ensures SweepFrom(t[l..r], i + 1 - l, j + 1 - l, pivot) == SweepFrom(s[l..r], i - l, j - l, pivot)
  {
    SwapSlice(s, l, r, i, j);
  }

  /** One step of SweepFrom on the range [l, r) of a larger sequence, when the entry at j
      is not below the pivot and stays. */
  lemma SweepFromKeep(s: seq<int>, l: nat, r: nat, i: nat, j: nat, pivot: int)
    requires l + 1 <= i <= j < r <= |s| && s[j] >= pivot
    ensures SweepFrom(s[l..r], i - l, j + 1 - l, pivot) == SweepFrom(s[l..r], i - l, j - l, pivot)
  {
  }

  /** An exchange inside [l, r) is the same exchange on the range's entries. */
  lemma SwapSlice(s: seq<int>, l: nat, r: nat, a: nat, b: nat)
    requires l <= a < r && l <= b < r && r <= |s|
    ensures Swapped(s, a, b)[l..r] == Swapped(s[l..r], a - l, b - l)
  {
  }

  /** Every value of t also occurs in s, when the two are permutations of each other. */
  lemma LowerBoundKept(s: seq<int>, t: seq<int>, v: int)
    requires multiset(s) == multiset(t)
    requires forall k :: 0 <= k < |s| ==> s[k] >= v
    ensures forall k :: 0 <= k < |t| ==> t[k] >= v
  {
    forall k | 0 <= k < |t| ensures t[k] >= v {
      assert t[k] in multiset(s);
    }
  }

  lemma UpperBoundKept(s: seq<int>, t: seq<int>, v: int)
    requires multiset(s) == multiset(t)
    requires forall k :: 0 <= k < |s| ==> s[k] < v
    ensures forall k :: 0 <= k < |t| ==> t[k] < v
  {
    forall k | 0 <= k < |t| ensures t[k] < v {
      assert t[k] in multiset(s);
    }
  }

  /** A sorted part below the pivot, the pivot, and a sorted part not below it. */
  lemma SortedAround(a: seq<int>, p: int, b: seq<int>)
    requires Sorted(a) && Sorted(b)
    requires forall k :: 0 <= k < |a| ==> a[k] < p
    requires forall k :: 0 <= k < |b| ==> b[k] >= p
    ensures Sorted(a + [p] + b)
  {
    var s := a + [p] + b;
    forall i, j | 0 <= i < j < |s| ensures s[i] <= s[j] {
      if j < |a| {
        assert s[i] == a[i] && s[j] == a[j];
      } else if i > |a| {
        assert s[i] == b[i - |a| - 1] && s[j] == b[j - |a| - 1];
      } else if i < |a| {
        assert s[i] == a[i];
        if j > |a| {
          assert s[j] == b[j - |a| - 1];
        }
      } else if j > |a| {
        assert s[j] == b[j - |a| - 1];
      }
    }
  }

  /** Splitting a range at the pivot position splits its multiset. */
  lemma RangeSplit(s: seq<int>, l: nat, p: nat, r: nat)
    requires l <= p < r <= |s|
    ensures s[l..r] == s[l..p] + [s[p]] + s[p + 1..r]
    ensures multiset(s[l..r]) == multiset(s[l..p]) + multiset{s[p]} + multiset(s[p + 1..r])
  {
    assert s[l..r] == s[l..p] + [s[p]] + s[p + 1..r];
  }

  /** The state of the partition sweep of quickSort on [l, r) with pivot value pivot,
      j the next entry to look at and i the first entry not below the pivot. */
  ghost predicate Sweep(s: seq<int>, start: seq<int>, l: nat, r: nat, i: nat, j: nat, pivot: int)
  {
    l + 1 <= i <= j <= r <= |s|
    && s[l] == pivot
    && (forall k :: l < k < i ==> s[k] < pivot)
    && (forall k :: i <= k < j ==> s[k] >= pivot)
    && Rearranged(s, start, l, r)
  }

  /** The outcome of a partition of [l, r) around position p. */
  ghost predicate Parted(s: seq<int>, l: nat, p: nat, r: nat)
  {
    l <= p < r <= |s|
    && (forall k :: l <= k < p ==> s[k] < s[p])
    && (forall k :: p < k < r ==> s[k] >= s[p])
  }

  lemma SweepStart(start: seq<int>, t: seq<int>, l: nat, r: nat, m: nat)
    requires l + 1 < r <= |start| && l <= m < r && t == Swapped(start, l, m)
    ensures Sweep(t, start, l, r, l + 1, l + 1, start[m])
  {
    SwapRearranged(start, start, l, r, l, m);
  }

  /** An entry below the pivot is exchanged into the front part. */
  lemma SweepSwap(s: seq<int>, t: seq<int>, start: seq<int>, l: nat, r: nat, i: nat, j: nat,
                  pivot: int)
    requires Sweep(s, start, l, r, i, j, pivot) && j < r && s[j] < pivot
    requires t == Swapped(s, i, j)
    ensures Sweep(t, start, l, r, i + 1, j + 1, pivot)
  {
    SwapRearranged(s, start, l, r, i, j);
  }

  /** An entry not below the pivot stays where it is. */
  lemma SweepKeep(s: seq<int>, start: seq<int>, l: nat, r: nat, i: nat, j: nat, pivot: int)
    requires Sweep(s, start, l, r, i, j, pivot) && j < r && s[j] >= pivot
    ensures Sweep(s, start, l, r, i, j + 1, pivot)
  {
  }

  /** The final exchange puts the pivot between the two parts. */
  lemma SweepEnd(s: seq<int>, t: seq<int>, start: seq<int>, l: nat, r: nat, i: nat, pivot: int)
    requires Sweep(s, start, l, r, i, r, pivot) && t == Swapped(s, l, i - 1)
    ensures Parted(t, l, i - 1, r) && Rearranged(t, start, l, r)
    ensures t[i - 1] == pivot
  {
    SwapRearranged(s, start, l, r, l, i - 1);
  }

  /** s is start with [l, r) sorted in place: same values there, the rest untouched. */
  ghost predicate SortedWithin(s: seq<int>, start: seq<int>, l: nat, r: nat)
  {
    l <= r <= |s| && Sorted(s[l..r]) && Rearranged(s, start, l, r)
  }

  lemma SortedShort(s: seq<int>, l: nat, r: nat)
    requires l <= r <= |s| && r - l <= 1
    ensures SortedWithin(s, s, l, r)
  {
  }

  /** A rearrangement within [l, r) leaves every slice beyond r as it was. */
  lemma RestKept(s: seq<int>, start: seq<int>, l: nat, r: nat, a: nat, b: nat)
    requires Rearranged(s, start, l, r) && r <= a <= b <= |s|
    ensures s[a..b] == start[a..b]
  {
  }

  /** The facts that tie the partition and the two recursive calls together. */
  lemma SortStep(parted: seq<int>, low: seq<int>, high: seq<int>, l: nat, i: nat, r: nat)
    requires 0 < i && Parted(parted, l, i - 1, r)
    requires SortedWithin(low, parted, l, i - 1)
    requires SortedWithin(high, low, i, r)
    ensures SortedWithin(high, parted, l, r)
  {
    var p := i - 1;
    assert high[l..p] == low[l..p];
    assert high[p] == parted[p];
    RearrangedRange(low, parted, l, p);
    RearrangedRange(high, low, p + 1, r);
    assert low[p + 1..r] == parted[p + 1..r];
    UpperBoundKept(parted[l..p], low[l..p], parted[p]);
    LowerBoundKept(parted[p + 1..r], high[p + 1..r], parted[p]);
    RangeSplit(high, l, p, r);
    SortedAround(high[l..p], parted[p], high[p + 1..r]);
    RearrangedTrans(high, low, parted, l, r, p + 1, r);
  }
}

/** In-place quicksort with the median-of-three pivot rule and the comparison count of
    quickSort.py: a call on a range of length m > 1 adds m - 1 comparisons. */
module QuickSortCount {
  import opened QuickSortRanges

  /** The sorter: the array being sorted and the running comparison count. */
  class QuickSort {
    const arr: array<int>
    var comparisons: nat

    /** The array as buildArray fills it, with no comparisons counted yet. */
    constructor (contents: seq<int>)
      ensures fresh(arr) && arr[..] == contents && comparisons == 0
    {
      arr := new int[|contents|](k requires 0 <= k < |contents| => contents[k]);
      comparisons := 0;
    }

    /** swap: exchange arr[i] and arr[j], nothing else. */
    method Swap(i: nat, j: nat)
      requires i < arr.Length && j < arr.Length
      modifies arr
      ensures arr[..] == Swapped(old(arr[..]), i, j)
    {
      var tmp := arr[i];
      arr[i] := arr[j];
      arr[j] := tmp;
    }

    /** getMedian: the index, among x, y and z, of the median of their three values. */
    function GetMedian(x: nat, y: nat, z: nat): (m: nat)
      requires x < arr.Length && y < arr.Length && z < arr.Length
      reads arr
      ensures m == x || m == y || m == z
      ensures arr[m] == Median3(arr[x], arr[y], arr[z])
    {
      if arr[x] > arr[y] then
        if arr[x] < arr[z] then x
        else if arr[y] > arr[z] then y
        else z
      else
        if arr[x] > arr[z] then x
        else if arr[y] < arr[z] then y
        else z
    }

    /** The first part of the partition step of quickSort on [l, r): exchange the entry
        at l with the median of the first, middle and last entries, which becomes the
        pivot. */
    method MedianToFront(l: nat, r: nat) returns (pivot: int)
      requires l + 1 < r <= arr.Length
      modifies arr
      ensures pivot == old(Median3(arr[l], arr[(r - l - 1) / 2 + l], arr[r - 1]))
      ensures Sweep(arr[..], old(arr[..]), l, r, l + 1, l + 1, pivot)
      ensures arr[l..r] == Swapped(old(arr[l..r]), 0, MedianAt(old(arr[l..r])))
    {
      ghost var start := arr[..];
      var mid := (r - l - 1) / 2 + l;
      var medianIndex := GetMedian(l, mid, r - 1);
      assert medianIndex == l + MedianAt(start[l..r]);
      pivot := arr[medianIndex];
      Swap(l, medianIndex);
      SweepStart(start, arr[..], l, r, medianIndex);
      SwapSlice(start, l, r, l, medianIndex);
    }

    /** One iteration of the partition loop: an entry below the pivot is exchanged with
        the first entry not below it, and i moves past it. */
    method SweepStep(l: nat, r: nat, i: nat, j: nat, pivot: int, ghost start: seq<int>)
      returns (i': nat)
      requires j < r <= arr.Length && Sweep(arr[..], start, l, r, i, j, pivot)
      modifies arr
      ensures Sweep(arr[..], start, l, r, i', j + 1, pivot)
      ensures i' == if old(arr[j]) < pivot then i + 1 else i
      ensures SweepFrom(arr[l..r], i' - l, j + 1 - l, pivot) == SweepFrom(old(arr[l..r]), i - l, j - l, pivot)
    {
      if arr[j] < pivot {
        ghost var before := arr[..];
        Swap(i, j);
        SweepSwap(before, arr[..], start, l, r, i, j, pivot);
        SweepFromSwap(before, arr[..], l, r, i, j, pivot);
        i' := i + 1;
        assert SweepFrom(arr[l..r], i' - l, j + 1 - l, pivot) == SweepFrom(before[l..r], i - l, j - l, pivot);
      } else {
        SweepKeep(arr[..], start, l, r, i, j, pivot);
        SweepFromKeep(arr[..], l, r, i, j, pivot);
        i' := i;
        assert SweepFrom(arr[l..r], i' - l, j + 1 - l, pivot) == SweepFrom(old(arr[l..r]), i - l, j - l, pivot);
      }
    }

    /** The partition step of quickSort on [l, r): after MedianToFront, sweep j over
        (l, r) moving every entry below the pivot to the front, and drop the pivot at
        i - 1. */
    method Partition(l: nat, r: nat) returns (i: nat)
      requires l + 1 < r <= arr.Length
      modifies arr
      ensures l < i <= r
      ensures arr[i - 1] == old(Median3(arr[l], arr[(r - l - 1) / 2 + l], arr[r - 1]))
      ensures Parted(arr[..], l, i - 1, r) && Rearranged(arr[..], old(arr[..]), l, r)
      ensures arr[l..r] == PartitionOf(old(arr[l..r])).0 && i - 1 - l == PartitionOf(old(arr[l..r])).1
    {
      ghost var start := arr[..];
      ghost var t := arr[l..r];
      var pivot := MedianToFront(l, r);
      ghost var t1 := arr[l..r];
      assert t1[0] == pivot;
      i := SweepAll(l, r, pivot, start);
      PlacePivot(l, r, i, pivot, start, t, t1);
    }

    /** The exchange that ends the partition step: the pivot at l moves to i - 1, between
        the entries below it and those not below it. */
    method PlacePivot(l: nat, r: nat, i: nat, pivot: int, ghost start: seq<int>,
                      ghost t: seq<int>, ghost t1: seq<int>)
      requires Sweep(arr[..], start, l, r, i, r, pivot)
      requires |t| >= 2 && t1 == Swapped(t, 0, MedianAt(t))
      requires arr[l..r] == SweepFrom(t1, 1, 1, t1[0]).0 && i - l == SweepFrom(t1, 1, 1, t1[0]).1
      modifies arr
      ensures Parted(arr[..], l, i - 1, r) && Rearranged(arr[..], start, l, r) && arr[i - 1] == pivot
      ensures arr[l..r] == PartitionOf(t).0 && i - 1 - l == PartitionOf(t).1
    {
      ghost var before := arr[..];
      Swap(l, i - 1);
      SweepEnd(before, arr[..], start, l, r, i, pivot);
      PartitionEnd(t, t1, before, arr[..], l, r, i);
    }

    /** The loop of the partition step: j runs over (l, r). */
    method SweepAll(l: nat, r: nat, pivot: int, ghost start: seq<int>) returns (i: nat)
      requires l + 1 < r <= arr.Length && Sweep(arr[..], start, l, r, l + 1, l + 1, pivot)
      modifies arr
      ensures Sweep(arr[..], start, l, r, i, r, pivot)
      ensures arr[l..r] == SweepFrom(old(arr[l..r]), 1, 1, pivot).0
      ensures i - l == SweepFrom(old(arr[l..r]), 1, 1, pivot).1
    {
      i := l + 1;
      var j := l + 1;
      while j < r
        invariant l + 1 <= i <= j <= r
        invariant Sweep(arr[..], start, l, r, i, j, pivot)
        invariant SweepFrom(arr[l..r], i - l, j - l, pivot) == SweepFrom(old(arr[l..r]), 1, 1, pivot)
      {
        i := SweepStep(l, r, i, j, pivot, start);
        j := j + 1;
      }
    }

    /** quickSort(l, r): sort arr[l:r] in place. The range ends up sorted and holding the
        same values, the rest of arr is untouched, and the count grows by exactly the
        comparisons of the range's entries: r - l - 1 at this call plus what the recursive
        calls add. */
    method Sort(l: nat, r: nat)
      requires l <= r <= arr.Length
      modifies this, arr
      ensures SortedWithin(arr[..], old(arr[..]), l, r)
      ensures comparisons == old(comparisons) + Comparisons(old(arr[l..r]))
      decreases r - l, 1
    {
      if r - l > 1 {
        ghost var t := arr[l..r];
        comparisons := comparisons + (r - l - 1);
        ghost var start := arr[..];
        var i := Partition(l, r);
        ghost var parted := arr[..];
        CountSplit(t, parted, l, i, r);
        SortSides(l, i, r);
        RearrangedTrans(arr[..], parted, start, l, r, l, r);
      } else {
        SortedShort(arr[..], l, r);
      }
    }

    /** The two recursive calls of quickSort after the partition has put the pivot at
        i - 1: the range [l, r) ends up sorted, and the count grows by the comparisons of
        the two sides. */
    method SortSides(l: nat, i: nat, r: nat)
      requires l < i <= r <= arr.Length && Parted(arr[..], l, i - 1, r)
      modifies this, arr
      ensures SortedWithin(arr[..], old(arr[..]), l, r)
      ensures comparisons == old(comparisons) + Comparisons(old(arr[l..i - 1])) + Comparisons(old(arr[i..r]))
      decreases r - l, 0
    {
      ghost var parted := arr[..];
      Sort(l, i - 1);
      ghost var low := arr[..];
      RestKept(low, parted, l, i - 1, i, r);
      Sort(i, r);
      ghost var high := arr[..];
      SortStep(parted, low, high, l, i, r);
    }
  }
}
