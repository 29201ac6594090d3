/**
  Distances and sort keys: a finite integer or JavaScript's `Infinity`. No floating point
  is involved: every finite value the algorithms produce is an integer.
 */
module Distance {

  datatype Dist = Fin(n: int) | Inf

  /**
    The order the comparator `a - b` induces: `Infinity - Infinity` is `NaN`, which a
    sort treats as "equal", and any finite value is below `Infinity`.
   */
  predicate DistLe(a: Dist, b: Dist) {
    b.Inf? || (a.Fin? && a.n <= b.n)
  }

  /** `DistLe` is a total preorder whose ties are exactly the equal keys. */
  lemma DistLeTotal(a: Dist, b: Dist, c: Dist)
    ensures DistLe(a, a)
    ensures DistLe(a, b) || DistLe(b, a)
    ensures DistLe(a, b) && DistLe(b, c) ==> DistLe(a, c)
    ensures DistLe(a, b) && DistLe(b, a) ==> a == b
  {
  }

  /** `d + 1`, with `Infinity + 1 == Infinity`. */
  function Succ(d: Dist): (r: Dist)
    ensures d.Fin? ==> r.Fin? && r.n == d.n + 1
    ensures d.Inf? ==> r.Inf?
  {
    match d
    case Fin(n) => Fin(n + 1)
    case Inf => Inf
  }
}
