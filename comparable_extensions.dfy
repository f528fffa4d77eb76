/** `clamped(in:)` (Collections/ComparableExtensions.swift). `Comparable` is
    modelled by `int`; a `ClosedRange` cannot be built with its lower bound
    above its upper bound, so that case is excluded. */
module ComparableExtensions {

  function Clamped(x: int, lowerBound: int, upperBound: int): (r: int)
    requires lowerBound <= upperBound
    ensures lowerBound <= r <= upperBound
    ensures x < lowerBound ==> r == lowerBound
    ensures x > upperBound ==> r == upperBound
    ensures lowerBound <= x <= upperBound ==> r == x
  {
    if x < lowerBound then lowerBound
    else if x > upperBound then upperBound
    else x
  }

  /** Clamping is idempotent, and it gives the value of the range nearest to
      `x`. */
  lemma ClampedSpec(x: int, lowerBound: int, upperBound: int, y: int)
    requires lowerBound <= upperBound
    ensures Clamped(Clamped(x, lowerBound, upperBound), lowerBound, upperBound)
            == Clamped(x, lowerBound, upperBound)
    ensures lowerBound <= y <= upperBound ==>
              Dist(x, Clamped(x, lowerBound, upperBound)) <= Dist(x, y)
  {
  }

  function Dist(a: int, b: int): nat
  {
    if a <= b then b - a else a - b
  }
}
