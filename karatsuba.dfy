/** Karatsuba multiplication over decimal digit splits (karatsuba-multiplication.py). */
module Karatsuba {

  /** 10 to the power k. */
  function Pow10(k: nat): (r: nat)
    ensures r >= 1
  {
    if k == 0 then 1 else 10 * Pow10(k - 1)
  }

  lemma {:induction false} Pow10Add(i: nat, j: nat)
    ensures Pow10(i + j) == Pow10(i) * Pow10(j)
  {
    if i > 0 {
      Pow10Add(i - 1, j);
      calc {
        Pow10(i + j);
        10 * Pow10(i - 1 + j);
        10 * (Pow10(i - 1) * Pow10(j));
        (10 * Pow10(i - 1)) * Pow10(j);
      }
    }
  }

  lemma {:induction false} Pow10Monotone(i: nat, j: nat)
    requires i <= j
    ensures Pow10(i) <= Pow10(j)
  {
    if i < j {
      Pow10Monotone(i, j - 1);
    }
  }

  /** The length of the decimal representation of a non-negative integer, len(str(x)). */
  function NumDigits(x: nat): (r: nat)
    ensures r >= 1
    ensures x < Pow10(r)
    ensures r > 1 ==> Pow10(r - 1) <= x
    ensures x >= 10 <==> r >= 2
  {
    if x < 10 then 1 else 1 + NumDigits(x / 10)
  }

  /** The digit count used to split both operands: the longer length, rounded down to even. */
  function SplitLength(x: nat, y: nat): (n: nat)
    requires x >= 10 && y >= 10
    ensures n % 2 == 0 && n >= 2
    ensures n <= NumDigits(x) || n <= NumDigits(y)
    ensures Pow10(n / 2) <= x || Pow10(n / 2) <= y
  {
    var m := MaxDigits(x, y);
    var n := if m % 2 == 0 then m else m - 1;
    HalfBelow(n, m);
    Pow10Monotone(n / 2, m - 1);
    n
  }

  /** The larger of the two digit counts. */
  function MaxDigits(x: nat, y: nat): (m: nat)
    requires x >= 10 && y >= 10
    ensures m >= 2 && (m == NumDigits(x) || m == NumDigits(y))
    ensures m >= NumDigits(x) && m >= NumDigits(y)
    ensures Pow10(m - 1) <= x || Pow10(m - 1) <= y
  {
    var dx, dy := NumDigits(x), NumDigits(y);
    if dx >= dy then dx else dy
  }

  lemma HalfBelow(n: nat, m: nat)
    requires m >= 2 && (n == m || n == m - 1)
    ensures n / 2 <= m - 1
  {
  }

  /** Splitting a non-negative x by bn >= 10 gives a quotient and remainder that are both
      no larger than x, with a quotient strictly smaller. */
  lemma SplitBounds(x: nat, bn: nat)
    requires bn >= 10 && x >= 10
    ensures x == (x / bn) * bn + x % bn && 0 <= x % bn < bn
    ensures x / bn < x && x % bn <= x
    ensures x / bn + x % bn <= x
    ensures bn <= x ==> x / bn + x % bn < x
  {
    var a, b := x / bn, x % bn;
    assert x == a * bn + b && 0 <= b < bn && a >= 0;
    MulMonotone(a, 10, bn);
    assert a * 10 <= x;
    if bn <= x {
      assert a >= 1;
    }
  }

  lemma MulMonotone(a: nat, k: nat, m: nat)
    requires k <= m
    ensures a * k <= a * m
  {
    assert a * m == a * k + a * (m - k);
  }

  /** The Karatsuba recombination identity. */
  lemma Recombine(a: int, b: int, c: int, d: int, bn: int)
    ensures (bn * bn) * (a * c) + bn * ((a + b) * (c + d) - a * c - b * d) + b * d
            == (a * bn + b) * (c * bn + d)
  {
    calc {
      (a * bn + b) * (c * bn + d);
      (a * bn) * (c * bn) + (a * bn) * d + b * (c * bn) + b * d;
      (bn * bn) * (a * c) + bn * (a * d + b * c) + b * d;
      { assert (a + b) * (c + d) - a * c - b * d == a * d + b * c; }
      (bn * bn) * (a * c) + bn * ((a + b) * (c + d) - a * c - b * d) + b * d;
    }
  }

  /** The recursive Karatsuba product. With either operand below 10 it multiplies
      directly; otherwise it splits x = a*bn + b and y = c*bn + d with bn = 10^(n/2)
      and combines three recursive products. The result is the exact product. */
  function Karatsuba(x: int, y: int): (r: int)
    ensures r == x * y
    decreases x + y
  {
    if x < 10 || y < 10 then x * y
    else
      var n := SplitLength(x, y);
      var bn := Pow10(n / 2);
      assert bn >= 10 by { Pow10Monotone(1, n / 2); }
      var a, b := x / bn, x % bn;
      var c, d := y / bn, y % bn;
      SplitBounds(x, bn);
      SplitBounds(y, bn);
      var ac := Karatsuba(a, c);
      var bd := Karatsuba(b, d);
      var adbc := Karatsuba(a + b, c + d) - ac - bd;
      assert Pow10(n) == bn * bn by { Pow10Add(n / 2, n / 2); }
      Recombine(a, b, c, d, bn);
      (Pow10(n) * ac) + bn * adbc + bd
  }
}
