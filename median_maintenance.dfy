/** Median maintenance over a stream of numbers with two heaps (medianMaintenance.py).
    The low heap holds the smaller half of the numbers read, the high heap the larger
    half; each heap is modelled by its contents in non-decreasing order, so the low
    heap's maximum (the negated top of lowHeap in medianMaintenance) is its last entry and the high heap's
    minimum is its first. */
module MedianMaintenance {
  import opened SortedSeqs

  /** The k-th median of the header: the ceil(k/2)-th smallest of the first k numbers. */
  function Median(s: seq<int>): int
    requires s != []
  {
    SortedOf(s)[(|s| + 1) / 2 - 1]
  }

  /** m_1 + ... + m_k for the stream s of length k. */
  function SumOfMedians(s: seq<int>): int
  {
    if s == [] then 0 else SumOfMedians(s[..|s| - 1]) + Median(s)
  }

  /** The median does not depend on which sorted arrangement of the numbers is used:
      it is the entry at position ceil(k/2) - 1 of every one of them. */
  lemma MedianOfArrangement(s: seq<int>, t: seq<int>)
    requires s != [] && Sorted(t) && multiset(t) == multiset(s)
    ensures |t| == |s| && Median(s) == t[(|s| + 1) / 2 - 1]
  {
    SortedUnique(SortedOf(s), t);
  }

  /** The two heaps split the sorted numbers: each entry of the low heap is at most
      each entry of the high heap, and together they hold exactly the numbers read. */
  lemma HeapsSplit(low: seq<int>, high: seq<int>, read: seq<int>)
    requires low + high == SortedOf(read)
    ensures forall i, j :: 0 <= i < |low| && 0 <= j < |high| ==> low[i] <= high[j]
    ensures multiset(low) + multiset(high) == multiset(read)
  {
    forall i, j | 0 <= i < |low| && 0 <= j < |high|
      ensures low[i] <= high[j]
    {
      assert (low + high)[i] == low[i] && (low + high)[|low| + j] == high[j];
    }
  }

  /** One pass of the loop body after the number x is read: push x onto the low heap,
      move the low heap's maximum to the high heap, and move the high heap's minimum
      back when the high heap has become the larger one. With k numbers read before, the
      heaps stay a split of the sorted numbers, the low heap holding ceil(k/2) of them and
      the high heap floor(k/2). */
  method Rebalance(lowHeap: seq<int>, highHeap: seq<int>, x: int, ghost k: nat)
    returns (low: seq<int>, high: seq<int>)
    requires Sorted(lowHeap + highHeap)
    requires |lowHeap| == (k + 1) / 2 && |highHeap| == k / 2
    ensures low + high == Insert(lowHeap + highHeap, x)
    ensures |low| == (k + 2) / 2 && |high| == (k + 1) / 2
  {
    low := Insert(lowHeap, x);
    var maxVal := low[|low| - 1];
    low := low[..|low| - 1];
    high := Insert(highHeap, maxVal);
    PushThenPop(lowHeap, highHeap, x);
    if |low| < |high| {
      var minVal := high[0];
      high := high[1..];
      InsertSorted(lowHeap + highHeap, x);
      MoveBack(low, high, minVal, Insert(lowHeap + highHeap, x));
      low := Insert(low, minVal);
    }
  }

  /** The push onto the low heap and the move of its maximum to the high heap put x
      into the sorted split. */
  lemma PushThenPop(low: seq<int>, high: seq<int>, x: int)
    requires Sorted(low + high)
    ensures var low1 := Insert(low, x);
      low1[..|low1| - 1] + Insert(high, low1[|low1| - 1]) == Insert(low + high, x)
  {
    if low != [] && x <= low[|low| - 1] {
      var front := low[..|low| - 1];
      var top := low[|low| - 1];
      assert low == front + [top];
      assert low + high == front + ([top] + high);
      SortedParts(front, top, high, low + high);
      PushBelowTop(front, top, high, x);
    } else {
      assert forall k :: 0 <= k < |low| ==> low[k] < x by {
        forall k | 0 <= k < |low| ensures low[k] < x {
          assert (low + high)[k] == low[k] && (low + high)[|low| - 1] == low[|low| - 1];
        }
      }
      PushAboveTop(low, high, x);
    }
  }

  /** The facts about the pieces of a sorted split that PushBelowTop needs. */
  lemma SortedParts(front: seq<int>, top: int, high: seq<int>, all: seq<int>)
    requires all == front + ([top] + high) && Sorted(all)
    ensures forall k :: 0 <= k < |front| ==> front[k] <= top
    ensures forall k :: 0 <= k < |high| ==> top <= high[k]
  {
    forall k | 0 <= k < |front| ensures front[k] <= top {
      assert all[k] == front[k] && all[|front|] == top;
    }
    forall k | 0 <= k < |high| ensures top <= high[k] {
      assert all[|front| + 1 + k] == high[k] && all[|front|] == top;
    }
  }

  /** x at most the low heap's maximum top: top is what moves to the high heap. */
  lemma PushBelowTop(front: seq<int>, top: int, high: seq<int>, x: int)
    requires x <= top
    requires forall k :: 0 <= k < |front| ==> front[k] <= top
    requires forall k :: 0 <= k < |high| ==> top <= high[k]
    ensures var low1 := Insert(front + [top], x);
      low1[..|low1| - 1] + Insert(high, low1[|low1| - 1]) == Insert(front + ([top] + high), x)
  {
    InsertBeforeTail(front, [top], x);
    var low1 := Insert(front, x) + [top];
    assert low1[..|low1| - 1] == Insert(front, x) && low1[|low1| - 1] == top;
    assert Insert(high, top) == [top] + high;
    InsertBeforeTail(front, [top] + high, x);
  }

  /** x above the whole low heap: x itself moves to the high heap. */
  lemma PushAboveTop(low: seq<int>, high: seq<int>, x: int)
    requires forall k :: 0 <= k < |low| ==> low[k] < x
    ensures var low1 := Insert(low, x);
      low1[..|low1| - 1] + Insert(high, low1[|low1| - 1]) == Insert(low + high, x)
  {
    InsertAfterHead(low, [], x);
    assert low + [] == low;
    var low1 := low + [x];
    assert low1[..|low1| - 1] == low && low1[|low1| - 1] == x;
    InsertAfterHead(low, high, x);
  }

  /** Moving the high heap's minimum n back to the low heap keeps the split. */
  lemma MoveBack(low: seq<int>, rest: seq<int>, n: int, all: seq<int>)
    requires low + ([n] + rest) == all && Sorted(all)
    ensures Insert(low, n) + rest == all
  {
    assert forall k :: 0 <= k < |low| ==> low[k] <= n by {
      forall k | 0 <= k < |low| ensures low[k] <= n {
        assert all[k] == low[k] && all[|low|] == n;
      }
    }
    assert Sorted(low) by {
      forall i, j | 0 <= i < j < |low| ensures low[i] <= low[j] {
        assert all[i] == low[i] && all[j] == low[j];
      }
    }
    InsertEnd(low, n);
    assert low + [n] + rest == all;
  }

  /** A value at or above every entry of a sorted sequence goes at the end. */
  lemma {:induction false} InsertEnd(s: seq<int>, x: int)
    requires Sorted(s) && forall k :: 0 <= k < |s| ==> s[k] <= x
    ensures Insert(s, x) == s + [x]
  {
    if s != [] {
      if x <= s[0] {
        assert forall k :: 0 <= k < |s| ==> s[k] == x by {
          forall k | 0 <= k < |s| ensures s[k] == x {
            assert s[0] <= s[k];
          }
        }
        assert [x] + s == s + [x];
      } else {
        InsertEnd(s[1..], x);
        assert s + [x] == [s[0]] + (s[1..] + [x]);
      }
    }
  }

  /** Reading the number at index k inserts it into the sorted numbers so far and adds
      the new median to the sum. */
  lemma NextNumber(numbers: seq<int>, k: int)
    requires 0 <= k < |numbers|
    ensures Sorted(SortedOf(numbers[..k]))
    ensures SortedOf(numbers[..k + 1]) == Insert(SortedOf(numbers[..k]), numbers[k])
    ensures SumOfMedians(numbers[..k + 1]) == SumOfMedians(numbers[..k]) + Median(numbers[..k + 1])
  {
    assert numbers[..k + 1] == numbers[..k] + [numbers[k]];
    LastSorted(numbers[..k + 1], numbers[..k], numbers[k]);
    LastSum(numbers[..k + 1], numbers[..k], numbers[k]);
  }

  /** The sorted numbers of a stream: those of the stream without its last number x, with
      x inserted. */
  lemma LastSorted(t: seq<int>, init: seq<int>, x: int)
    requires t == init + [x]
    ensures SortedOf(t) == Insert(SortedOf(init), x)
  {
    assert t[..|t| - 1] == init;
  }

  /** The sum of medians of a stream: that of the stream without its last number, plus
      the new median. */
  lemma LastSum(t: seq<int>, init: seq<int>, x: int)
    requires t == init + [x]
    ensures SumOfMedians(t) == SumOfMedians(init) + Median(t)
  {
    assert t[..|t| - 1] == init;
  }

  /** medianMaintenance: read the numbers one by one, rebalance the heaps and add the
      low heap's maximum; the result is the sum of the k-th medians modulo 10000. */
  method Run(numbers: seq<int>) returns (result: int)
    ensures result == SumOfMedians(numbers) % 10000
    ensures 0 <= result < 10000
  {
    var lowHeap: seq<int> := [];
    var highHeap: seq<int> := [];
    var sum := 0;
    var k := 0;
    while k < |numbers|
      invariant 0 <= k <= |numbers|
      invariant lowHeap + highHeap == SortedOf(numbers[..k])
      invariant |lowHeap| == (k + 1) / 2 && |highHeap| == k / 2
      invariant sum == SumOfMedians(numbers[..k])
    {
      var number := numbers[k];
      NextNumber(numbers, k);
      lowHeap, highHeap := Rebalance(lowHeap, highHeap, number, k);
      sum := sum + lowHeap[|lowHeap| - 1];
      assert (lowHeap + highHeap)[|lowHeap| - 1] == lowHeap[|lowHeap| - 1];
      k := k + 1;
    }
    assert numbers[..k] == numbers;
    result := sum % 10000;
  }
}
