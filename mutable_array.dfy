/** A Swift `Array` value that is changed in place by `mutating` members. Only the
    standard-library mutations the extensions in ReplaceElements and ArrayExtensions
    call are given; each traps (a `requires` here) where Swift's does. */
module MutableArrays {

  class MutableArray<T> {
    var elements: seq<T>

    /** A copy of `source`: Swift arrays are values, so the copy shares nothing. */
    constructor (source: seq<T>)
      ensures elements == source
    {
      elements := source;
    }

    /** `remove(at:)`: removes and returns the element at `index`. */
    method RemoveAt(index: int) returns (x: T)
      requires 0 <= index < |elements|
      modifies this
      ensures x == old(elements)[index]
      ensures elements == old(elements)[..index] + old(elements)[index + 1..]
    {
      x := elements[index];
      elements := elements[..index] + elements[index + 1..];
    }

    /** `insert(_:at:)`: shifts the elements from `index` on one place right. */
    method InsertAt(x: T, index: int)
      requires 0 <= index <= |elements|
      modifies this
      ensures elements == old(elements)[..index] + [x] + old(elements)[index..]
    {
      elements := elements[..index] + [x] + elements[index..];
    }

    /** `append(_:)`. */
    method Append(x: T)
      modifies this
      ensures elements == old(elements) + [x]
    {
      elements := elements + [x];
    }

    /** `removeLast()`: removes and returns the last element. */
    method RemoveLast() returns (x: T)
      requires |elements| > 0
      modifies this
      ensures x == old(elements)[|old(elements)| - 1]
      ensures elements == old(elements)[..|old(elements)| - 1]
    {
      x := elements[|elements| - 1];
      elements := elements[..|elements| - 1];
    }

    /** `removeFirst()`: removes and returns the first element. */
    method RemoveFirst() returns (x: T)
      requires |elements| > 0
      modifies this
      ensures x == old(elements)[0]
      ensures elements == old(elements)[1..]
    {
      x := elements[0];
      elements := elements[1..];
    }
  }
}
