/** Sorted sequences of integers: ordered insertion and the sorted arrangement of a
    sequence. They stand for Python's list.sort and for the heaps of heapq, whose
    internal layout the model does not follow. */
module SortedSeqs {

  ghost predicate Sorted(s: seq<int>)
  {
    forall i, j :: 0 <= i < j < |s| ==> s[i] <= s[j]
  }

  /** s with x put in front of the first entry not below it. */
  function Insert(s: seq<int>, x: int): (t: seq<int>)
    ensures |t| == |s| + 1
  {
    if s == [] then [x]
    else if x <= s[0] then [x] + s
    else
      assert s == [s[0]] + s[1..];
      [s[0]] + Insert(s[1..], x)
  }

  /** Insertion adds x to the values and nothing else. */
  lemma {:induction false} InsertMultiset(s: seq<int>, x: int)
    ensures multiset(Insert(s, x)) == multiset(s) + multiset{x}
  {
    if s != [] && x > s[0] {
      InsertMultiset(s[1..], x);
      assert Insert(s, x) == [s[0]] + Insert(s[1..], x);
      assert s == [s[0]] + s[1..];
      assert multiset(s) == multiset{s[0]} + multiset(s[1..]);
      assert multiset(Insert(s, x)) == multiset{s[0]} + multiset(Insert(s[1..], x));
    }
  }

  /** Insertion keeps a sequence sorted. */
  lemma {:induction false} InsertSorted(s: seq<int>, x: int)
    requires Sorted(s)
    ensures Sorted(Insert(s, x))
  {
    if s != [] && x > s[0] {
      var t := Insert(s[1..], x);
      assert Sorted(s[1..]) by {
        SortedTail(s);
      }
      InsertSorted(s[1..], x);
      InsertAbove(s[1..], x, s[0]);
      assert Insert(s, x) == [s[0]] + t;
    }
  }

  /** A bound below x and below every entry of s is below every entry after insertion. */
  lemma {:induction false} InsertAbove(s: seq<int>, x: int, y: int)
    requires y <= x && forall k :: 0 <= k < |s| ==> y <= s[k]
    ensures forall k :: 0 <= k < |Insert(s, x)| ==> y <= Insert(s, x)[k]
  {
    if s != [] && x > s[0] {
      InsertAbove(s[1..], x, y);
      assert Insert(s, x) == [s[0]] + Insert(s[1..], x);
    }
  }

  /** The values of s in non-decreasing order. */
  function SortedOf(s: seq<int>): (t: seq<int>)
    ensures Sorted(t) && multiset(t) == multiset(s) && |t| == |s|
  {
    if s == [] then []
    else
      assert s == s[..|s| - 1] + [s[|s| - 1]];
      InsertSorted(SortedOf(s[..|s| - 1]), s[|s| - 1]);
      InsertMultiset(SortedOf(s[..|s| - 1]), s[|s| - 1]);
      Insert(SortedOf(s[..|s| - 1]), s[|s| - 1])
  }

  /** Inserting into a concatenation whose second part starts at or above x. */
  lemma {:induction false} InsertBeforeTail(a: seq<int>, b: seq<int>, x: int)
    requires b != [] && x <= b[0] && forall k :: 0 <= k < |a| ==> a[k] <= b[0]
    ensures Insert(a + b, x) == Insert(a, x) + b
  {
    if a != [] {
      assert (a + b)[0] == a[0];
      assert (a + b)[1..] == a[1..] + b;
      if x > a[0] {
        InsertBeforeTail(a[1..], b, x);
      }
    }
  }

  /** Inserting into a concatenation whose first part lies wholly below x. */
  lemma {:induction false} InsertAfterHead(a: seq<int>, b: seq<int>, x: int)
    requires forall k :: 0 <= k < |a| ==> a[k] < x
    ensures Insert(a + b, x) == a + Insert(b, x)
  {
    if a != [] {
      var c := a + b;
      assert c != [] && c[0] == a[0] < x && c[1..] == a[1..] + b;
      assert Insert(c, x) == [a[0]] + Insert(a[1..] + b, x);
      InsertAfterHead(a[1..], b, x);
      assert a == [a[0]] + a[1..];
    } else {
      assert a + b == b && a + Insert(b, x) == Insert(b, x);
    }
  }

  /** The first entry of a sorted sequence is at most every value of any other
      arrangement of its values. */
  lemma HeadIsLeast(s: seq<int>, t: seq<int>)
    requires s != [] && t != [] && Sorted(s) && multiset(s) == multiset(t)
    ensures s[0] <= t[0]
  {
    assert t[0] in multiset(s);
    var j :| 0 <= j < |s| && s[j] == t[0];
  }

  /** Two sorted sequences with the same values are equal. */
  lemma {:induction false} SortedUnique(s: seq<int>, t: seq<int>)
    requires Sorted(s) && Sorted(t) && multiset(s) == multiset(t)
    ensures s == t
    decreases |s|
  {
    assert |t| == |s| by {
      assert |multiset(s)| == |s| && |multiset(t)| == |t|;
    }
    if s != [] {
      HeadIsLeast(s, t);
      HeadIsLeast(t, s);
      SortedTail(s);
      SortedTail(t);
      assert s[0] == t[0];
      assert multiset(s[1..]) == multiset(t[1..]);
      SortedUnique(s[1..], t[1..]);
      assert s == [s[0]] + s[1..] && t == [t[0]] + t[1..];
    }
  }

  /** Dropping the first entry keeps a sequence sorted and removes that one value. */
  lemma SortedTail(s: seq<int>)
    requires s != [] && Sorted(s)
    ensures Sorted(s[1..]) && multiset(s[1..]) == multiset(s) - multiset{s[0]}
  {
    assert s == [s[0]] + s[1..];
  }
}
