/** Natural numbers as bit strings: the labels of kClustersHammingDistance.py are read
    as binary numbers of a fixed number of bits, and their neighbours are found with
    num ^ (1 << i). The Hamming distance over n bits counts the positions below n where
    two numbers differ. */
module Bits {

  /** 1 << i. */
  function Pow2(i: nat): (p: nat)
    ensures p >= 1
  {
    if i == 0 then 1 else 2 * Pow2(i - 1)
  }

  /** Bit i of x. */
  function Bit(x: nat, i: nat): (b: nat)
    ensures b < 2
  {
    if i == 0 then x % 2 else Bit(x / 2, i - 1)
  }

  /** a ^ b, bit by bit from the lowest. */
  function Xor(a: nat, b: nat): nat
    decreases a + b
  {
    if a == 0 && b == 0 then 0 else 2 * Xor(a / 2, b / 2) + (a % 2 + b % 2) % 2
  }

  /** The bits of a ^ b are the sums modulo 2 of the bits of a and b. */
  lemma {:induction false} BitXor(a: nat, b: nat, i: nat)
    ensures Bit(Xor(a, b), i) == (Bit(a, i) + Bit(b, i)) % 2
    decreases i
  {
    if i > 0 {
      BitXor(a / 2, b / 2, i - 1);
      assert Xor(a, b) / 2 == Xor(a / 2, b / 2);
    }
  }

  /** 1 << i has bit i alone. */
  lemma {:induction false} BitPow2(i: nat, j: nat)
    ensures Bit(Pow2(i), j) == if i == j then 1 else 0
    decreases j
  {
    if j > 0 {
      if i > 0 {
        BitPow2(i - 1, j - 1);
      } else {
        BitZero(j - 1);
      }
    }
  }

  lemma {:induction false} BitZero(j: nat)
    ensures Bit(0, j) == 0
  {
    if j > 0 {
      BitZero(j - 1);
    }
  }

  /** A number is determined by its bits. */
  lemma {:induction false} BitsDetermine(a: nat, b: nat)
    requires forall i: nat :: Bit(a, i) == Bit(b, i)
    ensures a == b
    decreases a + b
  {
    if a != 0 || b != 0 {
      assert Bit(a, 0) == Bit(b, 0);
      forall i: nat ensures Bit(a / 2, i) == Bit(b / 2, i) {
        assert Bit(a, i + 1) == Bit(b, i + 1);
      }
      BitsDetermine(a / 2, b / 2);
    }
  }

  /** A number below 1 << n has no bit at position n or above. */
  lemma {:induction false} BitAbove(x: nat, n: nat, j: nat)
    requires x < Pow2(n) && n <= j
    ensures Bit(x, j) == 0
    decreases n
  {
    if n == 0 {
      BitZero(j);
    } else {
      BitAbove(x / 2, n - 1, j - 1);
    }
  }

  lemma {:induction false} Pow2Grows(i: nat, n: nat)
    requires i < n
    ensures Pow2(i) < Pow2(n)
    decreases n
  {
    if i < n - 1 {
      Pow2Grows(i, n - 1);
    }
  }

  /** The exclusive or of two n-bit numbers has n bits. */
  lemma {:induction false} XorBelow(a: nat, b: nat, n: nat)
    requires a < Pow2(n) && b < Pow2(n)
    ensures Xor(a, b) < Pow2(n)
    decreases n
  {
    if n > 0 && (a != 0 || b != 0) {
      XorBelow(a / 2, b / 2, n - 1);
    }
  }

  /** The positions below n where x and y differ. */
  ghost function Diff(x: nat, y: nat, n: nat): set<nat>
  {
    set i: nat | i < n && Bit(x, i) != Bit(y, i)
  }

  /** v is an n-bit number at Hamming distance d from x. */
  ghost predicate Near(x: nat, v: nat, n: nat, d: nat)
  {
    v < Pow2(n) && |Diff(x, v, n)| == d
  }

  /** x ^ (1 << b) differs from x in bit b alone. */
  lemma FlipBit(x: nat, b: nat, k: nat)
    ensures Bit(Xor(x, Pow2(b)), k) == if k == b then 1 - Bit(x, k) else Bit(x, k)
  {
    BitXor(x, Pow2(b), k);
    BitPow2(b, k);
  }

  /** x ^ (1 << a) ^ (1 << b), for a != b, differs from x in bits a and b alone. */
  lemma FlipTwoBits(x: nat, a: nat, b: nat, k: nat)
    requires a != b
    ensures Bit(Xor(Xor(x, Pow2(a)), Pow2(b)), k)
      == if k == a || k == b then 1 - Bit(x, k) else Bit(x, k)
  {
    FlipBit(x, a, k);
    FlipBit(Xor(x, Pow2(a)), b, k);
  }

  /** The flip of bit i of x, for i below n, is at distance 1. */
  lemma FlipOne(x: nat, i: nat, n: nat)
    requires x < Pow2(n) && i < n
    ensures Near(x, Xor(x, Pow2(i)), n, 1) && Diff(x, Xor(x, Pow2(i)), n) == {i}
  {
    var v := Xor(x, Pow2(i));
    Pow2Grows(i, n);
    XorBelow(x, Pow2(i), n);
    forall j ensures Bit(v, j) == if j == i then 1 - Bit(x, j) else Bit(x, j) {
      FlipBit(x, i, j);
    }
    assert Diff(x, v, n) == {i};
  }

  /** The flip of bits i and j of x, for i < j < n, is at distance 2. */
  lemma FlipTwo(x: nat, i: nat, j: nat, n: nat)
    requires x < Pow2(n) && i < j < n
    ensures Near(x, Xor(Xor(x, Pow2(i)), Pow2(j)), n, 2)
  {
    var u := Xor(x, Pow2(i));
    var v := Xor(u, Pow2(j));
    Pow2Grows(i, n);
    Pow2Grows(j, n);
    XorBelow(x, Pow2(i), n);
    XorBelow(u, Pow2(j), n);
    forall k ensures Bit(v, k) == if k == i || k == j then 1 - Bit(x, k) else Bit(x, k) {
      FlipTwoBits(x, i, j, k);
    }
    assert Diff(x, v, n) == {i, j};
  }

  /** Two n-bit numbers that agree on the bits below n are equal. */
  lemma SameLowBits(x: nat, y: nat, n: nat)
    requires x < Pow2(n) && y < Pow2(n)
    requires forall j :: 0 <= j < n ==> Bit(x, j) == Bit(y, j)
    ensures x == y
  {
    forall j: nat ensures Bit(x, j) == Bit(y, j) {
      if j >= n {
        BitAbove(x, n, j);
        BitAbove(y, n, j);
      }
    }
    BitsDetermine(x, y);
  }

  /** Every n-bit number at distance 0 from x is x itself. */
  lemma NoneIsSame(x: nat, v: nat, n: nat)
    requires x < Pow2(n) && Near(x, v, n, 0)
    ensures v == x
  {
    assert Diff(x, v, n) == {};
    forall j | 0 <= j < n ensures Bit(x, j) == Bit(v, j) {
      assert j !in Diff(x, v, n);
    }
    SameLowBits(x, v, n);
  }

  /** Every n-bit number at distance 1 from x is the flip of one of its n bits. */
  lemma OneIsFlip(x: nat, v: nat, n: nat) returns (i: nat)
    requires x < Pow2(n) && Near(x, v, n, 1)
    ensures i < n && v == Xor(x, Pow2(i))
  {
    i :| i in Diff(x, v, n);
    assert Diff(x, v, n) == {i} by {
      assert |Diff(x, v, n) - {i}| == 0;
    }
    var u := Xor(x, Pow2(i));
    FlipOne(x, i, n);
    forall j | 0 <= j < n ensures Bit(u, j) == Bit(v, j) {
      FlipBit(x, i, j);
      if j != i {
        assert j !in Diff(x, v, n);
      }
    }
    SameLowBits(u, v, n);
  }

  /** Every n-bit number at distance 2 from x is the flip of two of its n bits. */
  lemma TwoIsFlip(x: nat, v: nat, n: nat) returns (i: nat, j: nat)
    requires x < Pow2(n) && Near(x, v, n, 2)
    ensures i < j < n && v == Xor(Xor(x, Pow2(i)), Pow2(j))
  {
    var a :| a in Diff(x, v, n);
    assert |Diff(x, v, n) - {a}| == 1;
    var b :| b in Diff(x, v, n) - {a};
    assert Diff(x, v, n) == {a, b} by {
      assert |Diff(x, v, n) - {a} - {b}| == 0;
    }
    i, j := if a < b then a else b, if a < b then b else a;
    var u := Xor(x, Pow2(i));
    var w := Xor(u, Pow2(j));
    FlipTwo(x, i, j, n);
    forall k | 0 <= k < n ensures Bit(w, k) == Bit(v, k) {
      FlipTwoBits(x, i, j, k);
      if k != i && k != j {
        assert k !in Diff(x, v, n);
      }
    }
    SameLowBits(w, v, n);
  }

  /** The Hamming distance is symmetric. */
  lemma NearSymmetric(x: nat, v: nat, n: nat, d: nat)
    requires x < Pow2(n) && Near(x, v, n, d)
    ensures Near(v, x, n, d)
  {
    assert Diff(v, x, n) == Diff(x, v, n);
  }
}
