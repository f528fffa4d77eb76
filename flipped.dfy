/** `flipped(_:_:)` (Collections/Flipped.swift). */
module Flipped {

  /** The two values in the other order. */
  function Flipped<T, U>(a: T, b: U): (r: (U, T))
    ensures r.0 == b && r.1 == a
  {
    (b, a)
  }

  /** Flipping twice gives the pair back; `flipped(1, 2)` is `(2, 1)`. */
  lemma FlippedTwice<T, U>(a: T, b: U)
    ensures Flipped(Flipped(a, b).0, Flipped(a, b).1) == (a, b)
    ensures Flipped(1, 2) == (2, 1)
  {
  }
}
