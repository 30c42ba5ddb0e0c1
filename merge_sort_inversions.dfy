/** Merge sort that counts inversions while it sorts (mergesort-inversions.py). The
    Python lists become arrays, and the slices arr[:mid] and arr[mid:] fresh copies. */
module MergeSortInversions {

  ghost predicate Sorted(s: seq<int>)
  {
    forall i, j :: 0 <= i < j < |s| ==> s[i] <= s[j]
  }

  /** How many entries of s are greater than y. */
  function CountGreater(y: int, s: seq<int>): nat
  {
    if s == [] then 0
    else CountGreater(y, s[..|s| - 1]) + (if s[|s| - 1] > y then 1 else 0)
  }

  /** The number of inversions: pairs i < j with s[i] > s[j], each counted at its j. */
  function Inversions(s: seq<int>): nat
  {
    if s == [] then 0
    else Inversions(s[..|s| - 1]) + CountGreater(s[|s| - 1], s[..|s| - 1])
  }

  /** The pairs (x from a, y from b) with x > y, each counted at its y. */
  function Cross(a: seq<int>, b: seq<int>): nat
  {
    if b == [] then 0
    else Cross(a, b[..|b| - 1]) + CountGreater(b[|b| - 1], a)
  }

  /** The merge combine performs: on a tie the left element goes first. */
  function Merge(a: seq<int>, b: seq<int>): (r: seq<int>)
    ensures |r| == |a| + |b|
    decreases |a| + |b|
  {
    if a == [] then b
    else if b == [] then a
    else if a[0] <= b[0] then [a[0]] + Merge(a[1..], b)
    else [b[0]] + Merge(a, b[1..])
  }

  // ---------------------------------------------------------------------------
  // Counting lemmas

  lemma {:induction false} CountGreaterAppend(y: int, s: seq<int>, t: seq<int>)
    ensures CountGreater(y, s + t) == CountGreater(y, s) + CountGreater(y, t)
    decreases |t|
  {
    if t == [] {
      assert s + t == s;
    } else {
      assert (s + t)[..|s + t| - 1] == s + t[..|t| - 1];
      CountGreaterAppend(y, s, t[..|t| - 1]);
    }
  }

  /** CountGreater only depends on the multiset of entries. */
  lemma {:induction false} CountGreaterPermutation(y: int, s: seq<int>, t: seq<int>)
    requires multiset(s) == multiset(t)
    ensures CountGreater(y, s) == CountGreater(y, t)
    decreases |s|
  {
    if s != [] {
      var x := s[|s| - 1];
      var s' := s[..|s| - 1];
      assert x in multiset(t) by {
        assert s == s' + [x];
      }
      var k :| 0 <= k < |t| && t[k] == x;
      var rest := RemoveAt(t, k);
      RemoveAtMultiset(s, |s| - 1);
      RemoveAtMultiset(t, k);
      assert RemoveAt(s, |s| - 1) == s';
      CountGreaterPermutation(y, s', rest);
      CountGreaterRemoveAt(y, t, k);
    }
  }

  /** s without its k-th entry. */
  function RemoveAt(s: seq<int>, k: nat): seq<int>
    requires k < |s|
  {
    s[..k] + s[k + 1..]
  }

  lemma RemoveAtMultiset(s: seq<int>, k: nat)
    requires k < |s|
    ensures multiset(RemoveAt(s, k)) == multiset(s) - multiset{s[k]}
  {
    assert s == s[..k] + [s[k]] + s[k + 1..];
  }

  lemma CountGreaterRemoveAt(y: int, s: seq<int>, k: nat)
    requires k < |s|
    ensures CountGreater(y, s) == CountGreater(y, RemoveAt(s, k)) + (if s[k] > y then 1 else 0)
  {
    var u, v := s[..k], s[k + 1..];
    assert s == (u + [s[k]]) + v;
    CountGreaterAppend(y, u + [s[k]], v);
    CountGreaterAppend(y, u, [s[k]]);
    assert [s[k]][..0] == [];
    CountGreaterAppend(y, u, v);
  }

  lemma CrossRemoveAt(a: seq<int>, b: seq<int>, k: nat)
    requires k < |b|
    ensures Cross(a, b) == Cross(a, RemoveAt(b, k)) + CountGreater(b[k], a)
  {
    var u, v := b[..k], b[k + 1..];
    assert b == (u + [b[k]]) + v;
    CrossAppend(a, u + [b[k]], v);
    CrossAppend(a, u, [b[k]]);
    assert [b[k]][..0] == [];
    CrossAppend(a, u, v);
  }

  lemma {:induction false} CrossAppend(a: seq<int>, b: seq<int>, c: seq<int>)
    ensures Cross(a, b + c) == Cross(a, b) + Cross(a, c)
    decreases |c|
  {
    if c == [] {
      assert b + c == b;
    } else {
      assert (b + c)[..|b + c| - 1] == b + c[..|c| - 1];
      CrossAppend(a, b, c[..|c| - 1]);
    }
  }

  /** Cross only depends on the multisets of both sides. */
  lemma {:induction false} CrossPermutation(a: seq<int>, a': seq<int>, b: seq<int>, b': seq<int>)
    requires multiset(a) == multiset(a') && multiset(b) == multiset(b')
    ensures Cross(a, b) == Cross(a', b')
    decreases |b|
  {
    if b != [] {
      var y := b[|b| - 1];
      var c := b[..|b| - 1];
      assert y in multiset(b') by {
        assert b == c + [y];
      }
      var k :| 0 <= k < |b'| && b'[k] == y;
      RemoveAtMultiset(b, |b| - 1);
      RemoveAtMultiset(b', k);
      assert RemoveAt(b, |b| - 1) == c;
      CrossPermutation(a, a', c, RemoveAt(b', k));
      CountGreaterPermutation(y, a, a');
      CrossRemoveAt(a', b', k);
    }
  }

  /** The inversions of a + b are those inside a, those inside b and those across. */
  lemma {:induction false} InversionsSplit(a: seq<int>, b: seq<int>)
    ensures Inversions(a + b) == Inversions(a) + Inversions(b) + Cross(a, b)
    decreases |b|
  {
    if b == [] {
      assert a + b == a;
    } else {
      var y := b[|b| - 1];
      var c := b[..|b| - 1];
      assert (a + b)[..|a + b| - 1] == a + c;
      InversionsSplit(a, c);
      CountGreaterAppend(y, a, c);
    }
  }

  /** A sorted sequence has no inversions. */
  lemma {:induction false} SortedNoInversions(s: seq<int>)
    requires Sorted(s)
    ensures Inversions(s) == 0
  {
    if s != [] {
      var t := s[..|s| - 1];
      assert Sorted(t);
      SortedNoInversions(t);
      CountGreaterNone(s[|s| - 1], t);
    }
  }

  lemma {:induction false} CountGreaterNone(y: int, s: seq<int>)
    requires forall k :: 0 <= k < |s| ==> s[k] <= y
    ensures CountGreater(y, s) == 0
  {
    if s != [] {
      CountGreaterNone(y, s[..|s| - 1]);
    }
  }

  lemma {:induction false} CountGreaterAll(y: int, s: seq<int>)
    requires forall k :: 0 <= k < |s| ==> s[k] > y
    ensures CountGreater(y, s) == |s|
  {
    if s != [] {
      CountGreaterAll(y, s[..|s| - 1]);
    }
  }

  // ---------------------------------------------------------------------------
  // The merge

  /** Putting x in front of a sequence adds x to its multiset. */
  lemma ConsPermutation(x: int, rest: seq<int>, s: seq<int>, t: seq<int>)
    requires multiset(rest) == multiset(s) + multiset(t)
    ensures multiset([x] + rest) == multiset([x] + s) + multiset(t)
  {
    assert multiset([x] + rest) == multiset{x} + multiset(rest);
    assert multiset([x] + s) == multiset{x} + multiset(s);
  }

  lemma {:induction false} MergePermutation(a: seq<int>, b: seq<int>)
    ensures multiset(Merge(a, b)) == multiset(a) + multiset(b)
    decreases |a| + |b|
  {
    if a != [] && b != [] {
      if a[0] <= b[0] {
        var rest := Merge(a[1..], b);
        MergePermutation(a[1..], b);
        MergeCons(a, b, a[0], rest);
        ConsPermutation(a[0], rest, a[1..], b);
        assert [a[0]] + a[1..] == a;
      } else {
        var rest := Merge(a, b[1..]);
        MergePermutation(a, b[1..]);
        MergeCons(a, b, b[0], rest);
        ConsPermutation(b[0], rest, b[1..], a);
        assert [b[0]] + b[1..] == b;
      }
    }
  }

  /** One unfolding of Merge on two non-empty inputs. */
  lemma MergeCons(a: seq<int>, b: seq<int>, x: int, rest: seq<int>)
    requires a != [] && b != []
    requires x == (if a[0] <= b[0] then a[0] else b[0])
    requires rest == (if a[0] <= b[0] then Merge(a[1..], b) else Merge(a, b[1..]))
    ensures Merge(a, b) == [x] + rest
  {
  }

  /** A lower bound of both inputs bounds every entry of their merge. */
  lemma {:induction false} MergeBounded(x: int, a: seq<int>, b: seq<int>)
    requires forall k :: 0 <= k < |a| ==> x <= a[k]
    requires forall k :: 0 <= k < |b| ==> x <= b[k]
    ensures forall k :: 0 <= k < |Merge(a, b)| ==> x <= Merge(a, b)[k]
    decreases |a| + |b|
  {
    if a != [] && b != [] {
      if a[0] <= b[0] {
        MergeBounded(x, a[1..], b);
      } else {
        MergeBounded(x, a, b[1..]);
      }
    }
  }

  /** [x] + m is sorted when m is and x is no larger than any entry of m. */
  lemma SortedCons(x: int, m: seq<int>)
    requires Sorted(m) && forall k :: 0 <= k < |m| ==> x <= m[k]
    ensures Sorted([x] + m)
  {
    var s := [x] + m;
    forall i, j | 0 <= i < j < |s| ensures s[i] <= s[j] {
      assert s[j] == m[j - 1];
      if i > 0 {
        assert s[i] == m[i - 1];
      }
    }
  }

  lemma {:induction false} MergeSorted(a: seq<int>, b: seq<int>)
    requires Sorted(a) && Sorted(b)
    ensures Sorted(Merge(a, b))
    decreases |a| + |b|
  {
    if a != [] && b != [] {
      if a[0] <= b[0] {
        MergeSortedLeft(a, b);
      } else {
        MergeSortedRight(a, b);
      }
    }
  }

  lemma {:induction false} MergeSortedLeft(a: seq<int>, b: seq<int>)
    requires Sorted(a) && Sorted(b) && a != [] && b != [] && a[0] <= b[0]
    ensures Sorted(Merge(a, b))
    decreases |a| + |b|, 0
  {
    var m := Merge(a[1..], b);
    MergeSorted(a[1..], b);
    MergeBounded(a[0], a[1..], b);
    SortedCons(a[0], m);
  }

  lemma {:induction false} MergeSortedRight(a: seq<int>, b: seq<int>)
    requires Sorted(a) && Sorted(b) && a != [] && b != [] && a[0] > b[0]
    ensures Sorted(Merge(a, b))
    decreases |a| + |b|, 0
  {
    var m := Merge(a, b[1..]);
    MergeSorted(a, b[1..]);
    MergeBounded(b[0], a, b[1..]);
    SortedCons(b[0], m);
  }

  lemma CrossSnoc(a: seq<int>, b: seq<int>, j: nat)
    requires j < |b|
    ensures Cross(a, b[..j + 1]) == Cross(a, b[..j]) + CountGreater(b[j], a)
  {
    assert b[..j + 1][..j] == b[..j];
  }

  /** Merge of a[i..] and b[j..], written on indices. */
  function MergeFrom(a: seq<int>, b: seq<int>, i: nat, j: nat): seq<int>
    requires i <= |a| && j <= |b|
    decreases |a| - i + |b| - j
  {
    if i == |a| then b[j..]
    else if j == |b| then a[i..]
    else if a[i] <= b[j] then [a[i]] + MergeFrom(a, b, i + 1, j)
    else [b[j]] + MergeFrom(a, b, i, j + 1)
  }

  lemma {:induction false} MergeFromIsMerge(a: seq<int>, b: seq<int>, i: nat, j: nat)
    requires i <= |a| && j <= |b|
    ensures MergeFrom(a, b, i, j) == Merge(a[i..], b[j..])
    decreases |a| - i + |b| - j
  {
    if i < |a| && j < |b| {
      assert a[i..][1..] == a[i + 1..];
      assert b[j..][1..] == b[j + 1..];
      if a[i] <= b[j] {
        MergeFromIsMerge(a, b, i + 1, j);
      } else {
        MergeFromIsMerge(a, b, i, j + 1);
      }
    }
  }

  /** Once every left element has been copied, the right elements still to come add no
      inversions: they are no smaller than the last left element. */
  lemma {:induction false} CrossRestZero(left: seq<int>, right: seq<int>, j: nat, m: nat)
    requires Sorted(left) && Sorted(right) && j <= m <= |right|
    requires 0 < |left| && j < |right| ==> left[|left| - 1] <= right[j]
    ensures Cross(left, right[..m]) == Cross(left, right[..j])
    decreases m
  {
    if m > j {
      CrossRestZero(left, right, j, m - 1);
      CrossSnoc(left, right, m - 1);
      CountAtRight(left, |left|, right[m - 1]);
    }
  }

  /** One of the two tail loops of combine: copy src[start..] to arr from position k on. */
  method CopyFrom(src: seq<int>, start: nat, arr: array<int>, k: nat)
    requires start <= |src| && k + (|src| - start) <= arr.Length
    modifies arr
    ensures forall t :: 0 <= t < arr.Length ==>
      arr[t] == if k <= t < k + (|src| - start) then src[start + (t - k)] else old(arr[t])
  {
    var i, k' := start, k;
    while i < |src|
      invariant start <= i <= |src| && k' == k + (i - start)
      invariant forall t :: 0 <= t < arr.Length ==>
        arr[t] == if k <= t < k' then src[start + (t - k)] else old(arr[t])
    {
      arr[k'] := src[i];
      i := i + 1;
      k' := k' + 1;
    }
  }

  /** The count the first loop of combine accumulates from position (i, j) on: copying
      right[j] while left[i..] remains adds len(left) - i. */
  function MergeCount(a: seq<int>, b: seq<int>, i: nat, j: nat): nat
    requires i <= |a| && j <= |b|
    decreases |a| - i + |b| - j
  {
    if i == |a| || j == |b| then 0
    else if a[i] <= b[j] then MergeCount(a, b, i + 1, j)
    else (|a| - i) + MergeCount(a, b, i, j + 1)
  }

  /** For sorted halves that count is exactly the number of cross inversions. */
  lemma {:induction false} MergeCountIsCross(a: seq<int>, b: seq<int>, i: nat, j: nat)
    requires Sorted(a) && Sorted(b) && i <= |a| && j <= |b|
    requires 0 < i && j < |b| ==> a[i - 1] <= b[j]
    ensures MergeCount(a, b, i, j) + Cross(a, b[..j]) == Cross(a, b)
    decreases |a| - i + |b| - j
  {
    if i == |a| {
      CrossRestZero(a, b, j, |b|);
      assert b[..|b|] == b;
    } else if j == |b| {
      assert b[..j] == b;
    } else if a[i] <= b[j] {
      MergeCountIsCross(a, b, i + 1, j);
    } else {
      CountAtRight(a, i, b[j]);
      CrossSnoc(a, b, j);
      MergeCountIsCross(a, b, i, j + 1);
    }
  }

  /** The next element of the merge from position (i, j), and where the merge goes on. */
  /** With both fronts left, a front of a no larger than that of b is merged next, and
      the count does not grow. */
  lemma TakeLeft(a: seq<int>, b: seq<int>, i: nat, j: nat, merged: seq<int>, k: nat)
    requires i < |a| && j < |b| && a[i] <= b[j] && k <= |merged| && MergeFrom(a, b, i, j) == merged[k..]
    ensures k < |merged| && merged[k] == a[i] && MergeFrom(a, b, i + 1, j) == merged[k + 1..]
    ensures MergeCount(a, b, i, j) == MergeCount(a, b, i + 1, j)
  {
    assert merged[k..][0] == merged[k] && merged[k..][1..] == merged[k + 1..];
  }

  /** With both fronts left, a front of b smaller than that of a is merged next, and it
      counts once for each of the |a| - i elements of a left. */
  lemma TakeRight(a: seq<int>, b: seq<int>, i: nat, j: nat, merged: seq<int>, k: nat)
    requires i < |a| && j < |b| && a[i] > b[j] && k <= |merged| && MergeFrom(a, b, i, j) == merged[k..]
    ensures k < |merged| && merged[k] == b[j] && MergeFrom(a, b, i, j + 1) == merged[k + 1..]
    ensures MergeCount(a, b, i, j) == (|a| - i) + MergeCount(a, b, i, j + 1)
  {
    assert merged[k..][0] == merged[k] && merged[k..][1..] == merged[k + 1..];
  }

  /** Merging from the fronts of both halves is the whole merge. */
  lemma MergeStart(a: seq<int>, b: seq<int>)
    ensures MergeFrom(a, b, 0, 0) == Merge(a, b)[0..]
  {
    MergeFromIsMerge(a, b, 0, 0);
    assert a[0..] == a && b[0..] == b;
  }

  /** The first loop of combine: while both halves have elements, copy the smaller front
      (the left one on a tie), adding len(left) - i whenever right[j] is copied. */
  method MergeFronts(left: seq<int>, right: seq<int>, arr: array<int>)
    returns (i: nat, j: nat, k: nat, invCount: nat)
    requires arr.Length == |left| + |right|
    modifies arr
    ensures i <= |left| && j <= |right| && k == i + j
    ensures i == |left| || j == |right|
    ensures forall t :: 0 <= t < k ==> arr[t] == Merge(left, right)[t]
    ensures MergeFrom(left, right, i, j) == Merge(left, right)[k..]
    ensures invCount == MergeCount(left, right, 0, 0)
  {
    ghost var merged := Merge(left, right);
    MergeStart(left, right);
    invCount := 0;
    i, j, k := 0, 0, 0;
    while i < |left| && j < |right|
      invariant 0 <= i <= |left| && 0 <= j <= |right| && k == i + j
      invariant k <= |merged|
      invariant forall t :: 0 <= t < k ==> arr[t] == merged[t]
      invariant MergeFrom(left, right, i, j) == merged[k..]
      invariant invCount + MergeCount(left, right, i, j) == MergeCount(left, right, 0, 0)
    {
      var front: int;
      if left[i] <= right[j] {
        TakeLeft(left, right, i, j, merged, k);
        front := left[i];
        i := i + 1;
      } else {
        TakeRight(left, right, i, j, merged, k);
        invCount := invCount + (|left| - i);
        front := right[j];
        j := j + 1;
      }
      arr[k] := front;
      k := k + 1;
    }
  }

  /** combine: merge the sorted halves left and right into arr (the first loop), then copy
      whichever half still has elements (the two tail loops). The count is the number of
      pairs (x from left, y from right) with x > y. combine only reads left and right, so
      they are sequence values here. */
  method Combine(left: seq<int>, right: seq<int>, arr: array<int>) returns (invCount: nat)
    requires arr.Length == |left| + |right|
    requires Sorted(left) && Sorted(right)
    modifies arr
    ensures arr[..] == Merge(left, right)
    ensures invCount == Cross(left, right)
  {
    var i, j, k;
    i, j, k, invCount := MergeFronts(left, right, arr);
    ghost var merged := Merge(left, right);
    CopyFrom(left, i, arr, k);
    CopyFrom(right, j, arr, k + (|left| - i));
    forall t | k <= t < arr.Length
      ensures arr[t] == merged[t]
    {
      assert merged[k..][t - k] == merged[t];
    }
    assert arr[..] == merged;
    MergeCountIsCross(left, right, 0, 0);
    assert right[..0] == [];
  }

  /** When y sits below left[i] but above everything already copied, exactly the
      len(left) - i uncopied left elements are greater than y. */
  lemma CountAtRight(left: seq<int>, i: nat, y: int)
    requires Sorted(left) && i <= |left| && (i < |left| ==> left[i] > y)
    requires 0 < i ==> left[i - 1] <= y
    ensures CountGreater(y, left) == |left| - i
  {
    assert left == left[..i] + left[i..];
    CountGreaterAppend(y, left[..i], left[i..]);
    BelowPrefix(left, i, y);
    AboveSuffix(left, i, y);
  }

  lemma BelowPrefix(left: seq<int>, i: nat, y: int)
    requires Sorted(left) && i <= |left| && (0 < i ==> left[i - 1] <= y)
    ensures CountGreater(y, left[..i]) == 0
  {
    var lo := left[..i];
    forall a | 0 <= a < |lo| ensures lo[a] <= y {
      assert lo[a] == left[a] <= left[i - 1];
    }
    CountGreaterNone(y, lo);
  }

  lemma AboveSuffix(left: seq<int>, i: nat, y: int)
    requires Sorted(left) && i <= |left| && (i < |left| ==> left[i] > y)
    ensures CountGreater(y, left[i..]) == |left| - i
  {
    var hi := left[i..];
    forall a | 0 <= a < |hi| ensures hi[a] > y {
      assert hi[a] == left[i + a] >= left[i];
    }
    CountGreaterAll(y, hi);
  }

  /** What merge_sort needs from its pieces: the merge of the two sorted halves is a
      sorted permutation of the whole, and the inversions add up. */
  lemma MergeSortStep(whole: seq<int>, mid: nat, left: seq<int>, right: seq<int>,
                      merged: seq<int>, count: int)
    requires mid <= |whole|
    requires Sorted(left) && multiset(left) == multiset(whole[..mid])
    requires Sorted(right) && multiset(right) == multiset(whole[mid..])
    requires merged == Merge(left, right)
    requires count == Inversions(whole[..mid]) + Inversions(whole[mid..]) + Cross(left, right)
    ensures Sorted(merged) && multiset(merged) == multiset(whole)
    ensures count == Inversions(whole)
  {
    var lo, hi := whole[..mid], whole[mid..];
    Halves(whole, mid);
    MergeSorted(left, right);
    MergeSortPermutation(lo, hi, left, right);
    MergeSortCount(lo, hi, left, right);
  }

  lemma Halves(whole: seq<int>, mid: nat)
    requires mid <= |whole|
    ensures whole[..mid] + whole[mid..] == whole
  {
  }

  lemma MergeSortPermutation(lo: seq<int>, hi: seq<int>, left: seq<int>, right: seq<int>)
    requires multiset(left) == multiset(lo) && multiset(right) == multiset(hi)
    ensures multiset(Merge(left, right)) == multiset(lo + hi)
  {
    MergePermutation(left, right);
  }

  lemma MergeSortCount(lo: seq<int>, hi: seq<int>, left: seq<int>, right: seq<int>)
    requires multiset(left) == multiset(lo) && multiset(right) == multiset(hi)
    ensures Inversions(lo + hi) == Inversions(lo) + Inversions(hi) + Cross(left, right)
  {
    InversionsSplit(lo, hi);
    CrossPermutation(left, lo, right, hi);
  }

  /** lefthalf = arr[:mid] / righthalf = arr[mid:] followed by the recursive call: a fresh
      array holding arr[lo:hi], sorted, with the inversion count of that slice. */
  method SortedCopy(arr: array<int>, lo: nat, hi: nat) returns (half: array<int>, inv: nat)
    requires lo <= hi <= arr.Length
    ensures fresh(half) && half.Length == hi - lo && Sorted(half[..]) && multiset(half[..]) == multiset(arr[lo..hi])
    ensures inv == Inversions(arr[lo..hi])
    decreases hi - lo, 1
  {
    half := new int[hi - lo](i requires 0 <= i < hi - lo reads arr => arr[lo + i]);
    assert half[..] == arr[lo..hi];
    inv := MergeSort(half);
  }

  /** merge_sort: sort copies of the two halves recursively, then combine them into arr.
      Returns the number of inversions of arr's original contents. */
  method MergeSort(arr: array<int>) returns (invCount: nat)
    modifies arr
    ensures Sorted(arr[..]) && multiset(arr[..]) == multiset(old(arr[..]))
    ensures invCount == Inversions(old(arr[..]))
    ensures arr.Length <= 1 ==> arr[..] == old(arr[..]) && invCount == 0
    decreases arr.Length, 0
  {
    invCount := 0;
    if arr.Length > 1 {
      var mid := arr.Length / 2;
      ghost var whole := arr[..];
      var lefthalf, leftInv := SortedCopy(arr, 0, mid);
      ghost var left := lefthalf[..];
      var righthalf, rightInv := SortedCopy(arr, mid, arr.Length);
      ghost var right := righthalf[..];
      assert lefthalf[..] == left;
      assert arr[0..mid] == whole[..mid] && arr[mid..arr.Length] == whole[mid..];
      var crossInv := Combine(lefthalf[..], righthalf[..], arr);
      invCount := leftInv + rightInv + crossInv;
      MergeSortStep(whole, mid, left, right, arr[..], invCount);
    } else if arr.Length == 1 {
      assert arr[..] == [arr[0]];
    }
  }
}
