/**
 * Tentative shortest-path distances. The Java engine keeps them as doubles and
 * uses Double.POSITIVE_INFINITY for "not reached yet"; here infinity is a
 * constructor of its own and finite distances are naturals, which is exact for
 * the non-negative integer weights of this model.
 */
module Distances {

  datatype Dist = Inf | Fin(n: nat)

  /** `d + w` with IEEE semantics for infinity: infinity plus a finite weight stays infinite. */
  function Add(d: Dist, w: nat): (r: Dist)
    ensures r.Inf? <==> d.Inf?
    ensures r.Fin? ==> r.n == d.n + w && AtMost(d, r)
  {
    match d
    case Inf => Inf
    case Fin(n) => Fin(n + w)
  }

  /** `a < b` as Java compares doubles: every finite value is below infinity, and infinity is below nothing. */
  predicate Less(a: Dist, b: Dist)
    ensures Less(a, b) ==> a.Fin?
    ensures a.Fin? && b.Inf? ==> Less(a, b)
    ensures a.Fin? && b.Fin? ==> (Less(a, b) <==> a.n < b.n)
  {
    match a
    case Inf => false
    case Fin(x) => b.Inf? || x < b.n
  }

  /** `a <= b`, the negation of `b < a`. */
  predicate AtMost(a: Dist, b: Dist)
  {
    !Less(b, a)
  }
}
