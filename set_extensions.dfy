/** `Set.insert(contentsOf:)` (SetExtensions.swift): a set updated in place. */
module SetExtensions {

  class MutableSet<T(==)> {
    var elements: set<T>

    constructor (initial: set<T>)
      ensures elements == initial
    {
      elements := initial;
    }

    /** `insert(_:)`. */
    method Insert(x: T)
      modifies this
      ensures elements == old(elements) + {x}
    {
      elements := elements + {x};
    }

    /** `insert(contentsOf:)`: each element of `other`, in no particular
        order. */
    method InsertContentsOf(other: set<T>)
      modifies this
      ensures elements == old(elements) + other
    {
      var remaining := other;
      while remaining != {}
        invariant remaining <= other
        invariant elements == old(elements) + (other - remaining)
        decreases |remaining|
      {
        var x :| x in remaining;
        Insert(x);
        remaining := remaining - {x};
      }
    }
  }

  /** After `insert(contentsOf: o)` every element of `o` and of the old set is
      present, nothing else is, and a second call changes nothing. */
  lemma InsertContentsOfSpec<T>(before: set<T>, other: set<T>)
    ensures forall x :: x in other ==> x in before + other
    ensures forall x :: x in before ==> x in before + other
    ensures forall x :: x in before + other ==> x in before || x in other
    ensures (before + other) + other == before + other
  {
  }
}
