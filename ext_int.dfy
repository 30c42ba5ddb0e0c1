/** Integers extended with the positive infinity that the programs write as
    float('inf'): the initial distance of every vertex and the answer when nothing is
    found. */
module ExtInt {

  datatype ExtInt = Finite(n: int) | Inf

  /** The order on extended integers: Inf is above every integer. */
  predicate Le(a: ExtInt, b: ExtInt)
  {
    b.Inf? || (a.Finite? && a.n <= b.n)
  }

  predicate Lt(a: ExtInt, b: ExtInt)
  {
    Le(a, b) && a != b
  }

  /** min(a, b). */
  function Min(a: ExtInt, b: ExtInt): (m: ExtInt)
    ensures Le(m, a) && Le(m, b)
    ensures m == a || m == b
  {
    if Le(a, b) then a else b
  }

  /** a + b, with inf + x == inf. */
  function Add(a: ExtInt, b: ExtInt): (s: ExtInt)
    ensures s.Finite? <==> a.Finite? && b.Finite?
    ensures s.Finite? ==> s.n == a.n + b.n
  {
    if a.Inf? || b.Inf? then Inf else Finite(a.n + b.n)
  }
}
