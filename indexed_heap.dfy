/** The binary min-heap the shortest-path and spanning-tree programs write by hand: a list
    whose entry 0 is a placeholder, whose root is at 1 and whose children of p are at 2p
    and 2p + 1, together with a map from each vertex to its index in the list. The state
    operations are specified by the functions below; the classes in the program modules
    perform them in place. */
module IndexedHeap {
  import opened ExtInt

  /** A list entry: a vertex and its key. */
  datatype Entry = Entry(v: int, key: ExtInt)

  /** Entry 0 stands for the list's [Vertex(-inf), -inf]; no operation ever reads it. */
  const Placeholder := Entry(-1, Inf)

  /** Every parent's key is at most its child's. */
  ghost predicate HeapOrder(h: seq<Entry>)
  {
    forall k :: 2 <= k < |h| ==> Le(h[k / 2].key, h[k].key)
  }

  /** The position map agrees with the list for every entry in the heap. */
  ghost predicate PosOk(h: seq<Entry>, pos: map<int, int>)
  {
    |h| >= 1 && forall k :: 1 <= k < |h| ==> h[k].v in pos && pos[h[k].v] == k
  }

  /** The entries of the heap, without the placeholder. */
  function Contents(h: seq<Entry>): multiset<Entry>
    requires |h| >= 1
  {
    multiset(h[1..])
  }

  /** v has an entry in the heap. */
  ghost predicate InHeap(h: seq<Entry>, v: int)
  {
    exists k :: 1 <= k < |h| && h[k].v == v
  }

  /** Heap order except between i and its parent, with i's parent no larger than i's
      children: what percUp restores. */
  ghost predicate UpInv(h: seq<Entry>, i: int)
  {
    1 <= i < |h|
    && (forall k :: 2 <= k < |h| && k != i ==> Le(h[k / 2].key, h[k].key))
    && (i >= 2 ==> forall k :: 2 <= k < |h| && k / 2 == i ==> Le(h[i / 2].key, h[k].key))
  }

  /** Heap order except between i and its children, with i's parent no larger than i's
      children: what percDown restores. */
  ghost predicate DownInv(h: seq<Entry>, i: int)
  {
    1 <= i < |h|
    && (forall k :: 2 <= k < |h| && k / 2 != i ==> Le(h[k / 2].key, h[k].key))
    && (i >= 2 ==> forall k :: 2 <= k < |h| && k / 2 == i ==> Le(h[i / 2].key, h[k].key))
  }

  function Swap(h: seq<Entry>, i: int, j: int): (r: seq<Entry>)
    requires 0 <= i < |h| && 0 <= j < |h|
    ensures |r| == |h| && r[i] == h[j] && r[j] == h[i]
    ensures forall k :: 0 <= k < |h| && k != i && k != j ==> r[k] == h[k]
  {
    h[i := h[j]][j := h[i]]
  }

  /** percUp(i): while i has a parent, swap i with it when i's key is smaller, recording
      both new positions, and move to the parent. */
  function SiftUp(h: seq<Entry>, pos: map<int, int>, i: int): (r: (seq<Entry>, map<int, int>))
    requires 1 <= i < |h|
    ensures |r.0| == |h|
    decreases i
  {
    if i / 2 > 0 then
      if Lt(h[i].key, h[i / 2].key) then
        var h' := Swap(h, i / 2, i);
        SiftUp(h', pos[h'[i / 2].v := i / 2][h'[i].v := i], i / 2)
      else
        SiftUp(h, pos, i / 2)
    else
      (h, pos)
  }

  /** minChild(i): the only child of i, or the one with the smaller key (the right one on
      a tie). */
  function MinChildOf(h: seq<Entry>, i: int): (mc: int)
    requires 1 <= i && 2 * i < |h|
    ensures mc == 2 * i || mc == 2 * i + 1
    ensures mc < |h| && (2 * i + 1 < |h| ==> Le(h[mc].key, h[2 * i].key) && Le(h[mc].key, h[2 * i + 1].key))
  {
    if i * 2 + 1 > |h| - 1 then i * 2
    else if Lt(h[i * 2].key, h[i * 2 + 1].key) then i * 2
    else i * 2 + 1
  }

  /** percDown(i): while i has a child, swap i with its smaller child when that child's key
      is smaller, recording both new positions, and move to that child. */
  function SiftDown(h: seq<Entry>, pos: map<int, int>, i: int): (r: (seq<Entry>, map<int, int>))
    requires 1 <= i
    ensures |r.0| == |h|
    decreases |h| - i
  {
    if i * 2 <= |h| - 1 then
      var mc := MinChildOf(h, i);
      if Lt(h[mc].key, h[i].key) then
        var h' := Swap(h, i, mc);
        SiftDown(h', pos[h'[mc].v := mc][h'[i].v := i], mc)
      else
        SiftDown(h, pos, mc)
    else
      (h, pos)
  }

  /** delMin: the root is returned; the last entry moves to the root, its position is
      recorded, the list shrinks by one and the new root percolates down. */
  function DelMinOf(h: seq<Entry>, pos: map<int, int>): (r: (Entry, seq<Entry>, map<int, int>))
    requires |h| >= 2
    ensures |r.1| == |h| - 1
  {
    var h1 := h[1 := h[|h| - 1]];
    var pos1 := pos[h1[1].v := 1];
    var h2 := h1[..|h| - 1];
    var s := SiftDown(h2, pos1, 1);
    (h[1], s.0, s.1)
  }

  /** changeDistance(v, d): the entry at pos[v] gets key d and percolates up. */
  function ChangeKeyOf(h: seq<Entry>, pos: map<int, int>, v: int, d: ExtInt): (r: (seq<Entry>, map<int, int>))
    requires v in pos && 1 <= pos[v] < |h|
    ensures |r.0| == |h|
  {
    var i := pos[v];
    SiftUp(h[i := Entry(h[i].v, d)], pos, i)
  }

  /** insert with the position recorded before percolating (allPairsShortestPath_Johnson.py). */
  function InsertOf(h: seq<Entry>, pos: map<int, int>, v: int, d: ExtInt): (r: (seq<Entry>, map<int, int>))
    requires |h| >= 1
    ensures |r.0| == |h| + 1
  {
    SiftUp(h + [Entry(v, d)], pos[v := |h|], |h|)
  }

  // Lemmas about the list operations.

  lemma SwapContents(h: seq<Entry>, i: int, j: int)
    requires 1 <= i < |h| && 1 <= j < |h|
    ensures Contents(Swap(h, i, j)) == Contents(h)
  {
    var t := h[1..];
    assert Swap(h, i, j)[1..] == t[i - 1 := h[j]][j - 1 := h[i]];
    assert t[i - 1] == h[i] && t[j - 1] == h[j];
  }

  lemma SwapPos(h: seq<Entry>, pos: map<int, int>, i: int, j: int)
    requires 1 <= i < |h| && 1 <= j < |h| && PosOk(h, pos)
    ensures var h' := Swap(h, i, j); PosOk(h', pos[h'[i].v := i][h'[j].v := j])
  {
    var h' := Swap(h, i, j);
    var pos' := pos[h'[i].v := i][h'[j].v := j];
    forall k | 1 <= k < |h'| ensures h'[k].v in pos' && pos'[h'[k].v] == k {
      if k != i && k != j {
        assert pos[h[i].v] == i && pos[h[j].v] == j && pos[h[k].v] == k;
      } else if k == i && i != j {
        assert pos[h[i].v] == i && pos[h[j].v] == j;
      }
    }
  }

  lemma {:induction false} SiftUpContents(h: seq<Entry>, pos: map<int, int>, i: int)
    requires 1 <= i < |h|
    ensures Contents(SiftUp(h, pos, i).0) == Contents(h)
    decreases i
  {
    if i / 2 > 0 {
      if Lt(h[i].key, h[i / 2].key) {
        var h' := Swap(h, i / 2, i);
        SwapContents(h, i / 2, i);
        SiftUpContents(h', pos[h'[i / 2].v := i / 2][h'[i].v := i], i / 2);
      } else {
        SiftUpContents(h, pos, i / 2);
      }
    }
  }

  lemma {:induction false} SiftUpPos(h: seq<Entry>, pos: map<int, int>, i: int)
    requires 1 <= i < |h| && PosOk(h, pos)
    ensures PosOk(SiftUp(h, pos, i).0, SiftUp(h, pos, i).1)
    decreases i
  {
    if i / 2 > 0 {
      if Lt(h[i].key, h[i / 2].key) {
        var h' := Swap(h, i / 2, i);
        SwapPos(h, pos, i / 2, i);
        SiftUpPos(h', pos[h'[i / 2].v := i / 2][h'[i].v := i], i / 2);
      } else {
        SiftUpPos(h, pos, i / 2);
      }
    }
  }

  lemma UpSwap(h: seq<Entry>, i: int)
    requires UpInv(h, i) && i / 2 > 0 && Lt(h[i].key, h[i / 2].key)
    ensures UpInv(Swap(h, i / 2, i), i / 2)
  {
    var h' := Swap(h, i / 2, i);
    var p := i / 2;
    forall k | 2 <= k < |h'| && k != p ensures Le(h'[k / 2].key, h'[k].key) {
      if k == i {
      } else if k / 2 == i {
        assert Le(h[p].key, h[k].key);
      } else if k / 2 == p {
        assert Le(h[p].key, h[k].key);
      } else {
        assert k / 2 != i && k / 2 != p;
        assert Le(h[k / 2].key, h[k].key);
      }
    }
    if p >= 2 {
      forall k | 2 <= k < |h'| && k / 2 == p ensures Le(h'[p / 2].key, h'[k].key) {
        assert Le(h[p / 2].key, h[p].key);
        if k != i {
          assert Le(h[p].key, h[k].key);
        }
      }
    }
  }

  lemma UpStay(h: seq<Entry>, i: int)
    requires UpInv(h, i) && i / 2 > 0 && !Lt(h[i].key, h[i / 2].key)
    ensures UpInv(h, i / 2)
  {
    var p := i / 2;
    if p >= 2 {
      forall k | 2 <= k < |h| && k / 2 == p ensures Le(h[p / 2].key, h[k].key) {
        assert Le(h[p / 2].key, h[p].key);
      }
    }
  }

  lemma {:induction false} SiftUpOrder(h: seq<Entry>, pos: map<int, int>, i: int)
    requires UpInv(h, i)
    ensures HeapOrder(SiftUp(h, pos, i).0)
    decreases i
  {
    if i / 2 > 0 {
      if Lt(h[i].key, h[i / 2].key) {
        var h' := Swap(h, i / 2, i);
        UpSwap(h, i);
        SiftUpOrder(h', pos[h'[i / 2].v := i / 2][h'[i].v := i], i / 2);
      } else {
        UpStay(h, i);
        SiftUpOrder(h, pos, i / 2);
      }
    }
  }

  lemma {:induction false} SiftDownContents(h: seq<Entry>, pos: map<int, int>, i: int)
    requires 1 <= i < |h|
    ensures Contents(SiftDown(h, pos, i).0) == Contents(h)
    decreases |h| - i
  {
    if i * 2 <= |h| - 1 {
      var mc := MinChildOf(h, i);
      if Lt(h[mc].key, h[i].key) {
        var h' := Swap(h, i, mc);
        SwapContents(h, i, mc);
        SiftDownContents(h', pos[h'[mc].v := mc][h'[i].v := i], mc);
      } else {
        SiftDownContents(h, pos, mc);
      }
    }
  }

  lemma {:induction false} SiftDownPos(h: seq<Entry>, pos: map<int, int>, i: int)
    requires 1 <= i < |h| && PosOk(h, pos)
    ensures PosOk(SiftDown(h, pos, i).0, SiftDown(h, pos, i).1)
    decreases |h| - i
  {
    if i * 2 <= |h| - 1 {
      var mc := MinChildOf(h, i);
      if Lt(h[mc].key, h[i].key) {
        var h' := Swap(h, i, mc);
        SwapPos(h, pos, mc, i);
        assert Swap(h, mc, i) == h';
        SiftDownPos(h', pos[h'[mc].v := mc][h'[i].v := i], mc);
      } else {
        SiftDownPos(h, pos, mc);
      }
    }
  }

  lemma DownSwap(h: seq<Entry>, i: int)
    requires DownInv(h, i) && i * 2 <= |h| - 1 && Lt(h[MinChildOf(h, i)].key, h[i].key)
    ensures DownInv(Swap(h, i, MinChildOf(h, i)), MinChildOf(h, i))
  {
    var mc := MinChildOf(h, i);
    var h' := Swap(h, i, mc);
    forall k | 2 <= k < |h'| && k / 2 != mc ensures Le(h'[k / 2].key, h'[k].key) {
      if k == mc {
      } else if k == i {
        assert Le(h[i / 2].key, h[mc].key);
      } else if k / 2 == i {
        assert k == 2 * i || k == 2 * i + 1;
      } else {
        assert k / 2 != i && k / 2 != mc;
        assert Le(h[k / 2].key, h[k].key);
      }
    }
    forall k | 2 <= k < |h'| && k / 2 == mc ensures Le(h'[mc / 2].key, h'[k].key) {
      assert k / 2 != i;
      assert Le(h[mc].key, h[k].key);
    }
  }

  lemma DownStay(h: seq<Entry>, i: int)
    requires DownInv(h, i) && i * 2 <= |h| - 1 && !Lt(h[MinChildOf(h, i)].key, h[i].key)
    ensures DownInv(h, MinChildOf(h, i))
  {
    var mc := MinChildOf(h, i);
    forall k | 2 <= k < |h| && k / 2 == i ensures Le(h[k / 2].key, h[k].key) {
      assert k == 2 * i || k == 2 * i + 1;
    }
    forall k | 2 <= k < |h| && k / 2 == mc ensures Le(h[mc / 2].key, h[k].key) {
      assert k / 2 != i;
      assert Le(h[mc].key, h[k].key);
    }
  }

  lemma {:induction false} SiftDownOrder(h: seq<Entry>, pos: map<int, int>, i: int)
    requires DownInv(h, i)
    ensures HeapOrder(SiftDown(h, pos, i).0)
    decreases |h| - i
  {
    if i * 2 <= |h| - 1 {
      var mc := MinChildOf(h, i);
      if Lt(h[mc].key, h[i].key) {
        var h' := Swap(h, i, mc);
        DownSwap(h, i);
        SiftDownOrder(h', pos[h'[mc].v := mc][h'[i].v := i], mc);
      } else {
        DownStay(h, i);
        SiftDownOrder(h, pos, mc);
      }
    }
  }

  /** In heap order the root's key is the least. */
  lemma {:induction false} RootLeast(h: seq<Entry>, k: int)
    requires HeapOrder(h) && 1 <= k < |h|
    ensures Le(h[1].key, h[k].key)
    decreases k
  {
    if k > 1 {
      RootLeast(h, k / 2);
    }
  }

  /** The vertices that have an entry in a multiset of entries. */
  function VertsOf(m: multiset<Entry>): set<int>
  {
    set e | e in m :: e.v
  }

  lemma PosEntry(h: seq<Entry>, pos: map<int, int>, e: Entry)
    requires PosOk(h, pos) && e in Contents(h)
    ensures e.v in pos && 1 <= pos[e.v] < |h| && h[pos[e.v]] == e
  {
    var k :| 0 <= k < |h[1..]| && h[1..][k] == e;
    assert h[k + 1] == e;
  }

  /** The list delMin hands to percDown. */
  lemma DelMinShrunk(h: seq<Entry>, pos: map<int, int>)
    requires |h| >= 3 && PosOk(h, pos) && HeapOrder(h)
    ensures var h2 := h[1 := h[|h| - 1]][..|h| - 1];
      && Contents(h2) + multiset{h[1]} == Contents(h)
      && (forall e :: e in Contents(h2) ==> e.v != h[1].v)
      && PosOk(h2, pos[h[|h| - 1].v := 1]) && DownInv(h2, 1)
  {
    var last := |h| - 1;
    var h2 := h[1 := h[last]][..last];
    var pos1 := pos[h[last].v := 1];
    assert h[1..] == [h[1]] + h[2..];
    assert h[2..] == h[2..last] + [h[last]];
    assert h2[1..] == [h[last]] + h[2..last];
    forall e | e in Contents(h2) ensures e.v != h[1].v {
      var k :| 0 <= k < |h2[1..]| && h2[1..][k] == e;
      assert pos[h[k + 1].v] == k + 1 || pos[h[last].v] == last;
      assert pos[h[1].v] == 1;
    }
    forall k | 1 <= k < |h2| ensures h2[k].v in pos1 && pos1[h2[k].v] == k {
      if k != 1 {
        assert pos[h[k].v] == k && pos[h[last].v] == last;
      }
    }
    assert DownInv(h2, 1);
  }

  /** delMin returns an entry of least key, leaves exactly the other entries, none of
      them for the returned vertex, and keeps heap order and the position map. */
  lemma DelMinSpec(h: seq<Entry>, pos: map<int, int>)
    requires |h| >= 2 && PosOk(h, pos) && HeapOrder(h)
    ensures var (r, h', pos') := DelMinOf(h, pos);
      && r in Contents(h)
      && (forall e :: e in Contents(h) ==> Le(r.key, e.key))
      && Contents(h') + multiset{r} == Contents(h)
      && (forall e :: e in Contents(h') ==> e.v != r.v)
      && PosOk(h', pos') && HeapOrder(h')
  {
    var r := h[1];
    assert h[1..] == [h[1]] + h[2..];
    forall e | e in Contents(h) ensures Le(r.key, e.key) {
      PosEntry(h, pos, e);
      RootLeast(h, pos[e.v]);
    }
    if |h| >= 3 {
      var h2 := h[1 := h[|h| - 1]][..|h| - 1];
      var pos1 := pos[h[|h| - 1].v := 1];
      DelMinShrunk(h, pos);
      SiftDownContents(h2, pos1, 1);
      SiftDownPos(h2, pos1, 1);
      SiftDownOrder(h2, pos1, 1);
    } else {
      assert DelMinOf(h, pos).1[1..] == [];
    }
  }

  /** changeDistance(v, d) on a vertex in the heap: v's entry, and only it, now has key d;
      the position map stays right, and heap order is kept when the key does not grow. */
  lemma ChangeKeySpec(h: seq<Entry>, pos: map<int, int>, v: int, d: ExtInt)
    requires PosOk(h, pos) && v in pos && 1 <= pos[v] < |h| && h[pos[v]].v == v
    ensures var (h', pos') := ChangeKeyOf(h, pos, v, d);
      && Contents(h') + multiset{h[pos[v]]} == Contents(h) + multiset{Entry(v, d)}
      && PosOk(h', pos')
      && (HeapOrder(h) && Le(d, h[pos[v]].key) ==> HeapOrder(h'))
  {
    var i := pos[v];
    var h1 := h[i := Entry(v, d)];
    assert h1[1..] == h[1..][i - 1 := Entry(v, d)];
    assert h[1..][i - 1] == h[i];
    SiftUpContents(h1, pos, i);
    SiftUpPos(h1, pos, i);
    if HeapOrder(h) && Le(d, h[i].key) {
      assert UpInv(h1, i);
      SiftUpOrder(h1, pos, i);
    }
  }

  /** insert of a vertex not yet in the heap: one entry more, heap order and the position
      map kept. */
  lemma InsertSpec(h: seq<Entry>, pos: map<int, int>, v: int, d: ExtInt)
    requires PosOk(h, pos) && v !in VertsOf(Contents(h))
    ensures var (h', pos') := InsertOf(h, pos, v, d);
      && Contents(h') == Contents(h) + multiset{Entry(v, d)}
      && PosOk(h', pos')
      && (HeapOrder(h) ==> HeapOrder(h'))
  {
    var h1 := h + [Entry(v, d)];
    var pos1 := pos[v := |h|];
    assert h1[1..] == h[1..] + [Entry(v, d)];
    forall k | 1 <= k < |h1| ensures h1[k].v in pos1 && pos1[h1[k].v] == k {
      if k < |h| {
        assert h[k] in Contents(h);
      }
    }
    SiftUpContents(h1, pos1, |h|);
    SiftUpPos(h1, pos1, |h|);
    if HeapOrder(h) {
      assert UpInv(h1, |h|);
      SiftUpOrder(h1, pos1, |h|);
    }
  }

  /** A list whose keys are all equal is in heap order: the state after initInsert of
      every vertex with the same key. */
  lemma EqualKeysOrdered(h: seq<Entry>, d: ExtInt)
    requires forall k :: 1 <= k < |h| ==> h[k].key == d
    ensures HeapOrder(h)
  {
  }

  /** The heap object of the shortest-path programs. */
  class MinHeap {
    var heapList: seq<Entry>
    var currentSize: int
    var pos: map<int, int>

    /** currentSize counts the entries after the placeholder. */
    ghost predicate Sized()
      reads this
    {
      |heapList| >= 1 && currentSize == |heapList| - 1
    }

    constructor()
      ensures heapList == [Placeholder] && currentSize == 0 && pos == map[]
    {
      heapList := [Placeholder];
      currentSize := 0;
      pos := map[];
    }

    /** Appends without restoring order: every initial entry has the same key. */
    method InitInsert(vertex: int, dist: ExtInt, i: int)
      modifies this
      ensures heapList == old(heapList) + [Entry(vertex, dist)]
      ensures pos == old(pos)[vertex := i] && currentSize == old(currentSize) + 1
    {
      heapList := heapList + [Entry(vertex, dist)];
      pos := pos[vertex := i];
      currentSize := currentSize + 1;
    }

    method Insert(vertex: int, dist: ExtInt)
      requires Sized()
      modifies this
      ensures Sized() && (heapList, pos) == InsertOf(old(heapList), old(pos), vertex, dist)
    {
      heapList := heapList + [Entry(vertex, dist)];
      currentSize := currentSize + 1;
      pos := pos[vertex := currentSize];
      PercUp(currentSize);
    }

    method PercUp(i0: int)
      requires 1 <= i0 < |heapList|
      modifies this
      ensures (heapList, pos) == SiftUp(old(heapList), old(pos), i0)
      ensures currentSize == old(currentSize)
    {
      var i := i0;
      while i / 2 > 0
        invariant 1 <= i < |heapList|
        invariant SiftUp(heapList, pos, i) == SiftUp(old(heapList), old(pos), i0)
        invariant currentSize == old(currentSize)
      {
        if Lt(heapList[i].key, heapList[i / 2].key) {
          var tmp := heapList[i / 2];
          heapList := heapList[i / 2 := heapList[i]];
          heapList := heapList[i := tmp];
          pos := pos[heapList[i / 2].v := i / 2];
          pos := pos[heapList[i].v := i];
        }
        i := i / 2;
      }
    }

    method PercDown(i0: int)
      requires Sized() && 1 <= i0
      modifies this
      ensures Sized() && (heapList, pos) == SiftDown(old(heapList), old(pos), i0)
    {
      var i := i0;
      while i * 2 <= currentSize
        invariant Sized() && 1 <= i
        invariant SiftDown(heapList, pos, i) == SiftDown(old(heapList), old(pos), i0)
        decreases |heapList| - i
      {
        var mc := MinChild(i);
        if Lt(heapList[mc].key, heapList[i].key) {
          var tmp := heapList[i];
          heapList := heapList[i := heapList[mc]];
          heapList := heapList[mc := tmp];
          pos := pos[heapList[mc].v := mc];
          pos := pos[heapList[i].v := i];
        }
        i := mc;
      }
    }

    method MinChild(i: int) returns (mc: int)
      requires Sized() && 1 <= i && i * 2 <= currentSize
      ensures mc == MinChildOf(heapList, i)
    {
      if i * 2 + 1 > currentSize {
        return i * 2;
      } else {
        if Lt(heapList[i * 2].key, heapList[i * 2 + 1].key) {
          return i * 2;
        } else {
          return i * 2 + 1;
        }
      }
    }

    method DelMin() returns (retval: Entry)
      requires Sized() && currentSize >= 1
      modifies this
      ensures Sized() && (retval, heapList, pos) == DelMinOf(old(heapList), old(pos))
    {
      retval := heapList[1];
      heapList := heapList[1 := heapList[currentSize]];
      pos := pos[heapList[1].v := 1];
      currentSize := currentSize - 1;
      heapList := heapList[..|heapList| - 1];
      PercDown(1);
    }

    method ChangeDistance(v: int, dist: ExtInt)
      requires v in pos && 1 <= pos[v] < |heapList|
      modifies this
      ensures (heapList, pos) == ChangeKeyOf(old(heapList), old(pos), v, dist)
      ensures currentSize == old(currentSize)
    {
      var i := pos[v];
      heapList := heapList[i := Entry(heapList[i].v, dist)];
      PercUp(i);
    }
  }
}
