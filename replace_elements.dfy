/** Replacing one element of an array (Collections/ReplaceElements.swift). The
    `mutating` members work on a `MutableArray` in place by removing the old element
    and inserting the new one; `WithElementReplaced` is the value they are proved to
    produce, and the one the tree operations use. */
module ReplaceElements {
  import opened Wrappers
  import opened MutableArrays

  /** The array with the element at `index` replaced by `element`, or `RemovalError`
      when `index` is not a valid position. */
  function WithElementReplaced<T>(s: seq<T>, index: int, element: T): (r: Result<seq<T>, ArrayError>)
    ensures r.Err? <==> index < 0 || index >= |s|
    ensures r.Err? ==> r.error == RemovalError
    ensures r.Ok? ==> |r.value| == |s| && r.value[index] == element
    ensures r.Ok? ==> forall j :: 0 <= j < |s| && j != index ==> r.value[j] == s[j]
  {
    if index < 0 || index >= |s| then Err(RemovalError)
    else Ok(s[..index] + [element] + s[index + 1..])
  }

  /** `replaceElement(at:with:)`: throws `RemovalError` and changes nothing when
      `index` is out of range; otherwise removes and re-inserts at `index`. */
  method ReplaceElement<T>(a: MutableArray<T>, index: int, element: T) returns (outcome: Outcome<ArrayError>)
    modifies a
    ensures WithElementReplaced(old(a.elements), index, element).Ok? ==>
              outcome == Pass && a.elements == WithElementReplaced(old(a.elements), index, element).value
    ensures WithElementReplaced(old(a.elements), index, element).Err? ==>
              outcome == Fail(RemovalError) && a.elements == old(a.elements)
  {
    if !(0 <= index < |a.elements|) {
      return Fail(RemovalError);
    }
    var _ := a.RemoveAt(index);
    a.InsertAt(element, index);
    outcome := Pass;
  }

  /** `replacingElement(at:with:)`: copies the array and replaces in the copy; the
      argument is a value and stays as it was. */
  method ReplacingElement<T>(source: seq<T>, index: int, element: T) returns (r: Result<seq<T>, ArrayError>)
    ensures r == WithElementReplaced(source, index, element)
  {
    var copy := new MutableArray(source);
    var outcome := ReplaceElement(copy, index, element);
    if outcome.Fail? {
      return Err(outcome.error);
    }
    r := Ok(copy.elements);
  }

  /** `replaceLast(with:)`: throws on an empty array; otherwise only the last
      element changes. */
  method ReplaceLast<T>(a: MutableArray<T>, element: T) returns (outcome: Outcome<ArrayError>)
    modifies a
    ensures outcome.Fail? <==> |old(a.elements)| == 0
    ensures outcome.Fail? ==> outcome.error == RemovalError && a.elements == old(a.elements)
    ensures outcome.Pass? ==> a.elements == old(a.elements)[|old(a.elements)| - 1 := element]
  {
    if |a.elements| == 0 {
      return Fail(RemovalError);
    }
    var _ := a.RemoveLast();
    a.Append(element);
    outcome := Pass;
  }

  /** `replaceFirst(with:)`: throws on an empty array (the throwing `removeFirst` it
      calls is taken to throw `RemovalError`); otherwise only the first element
      changes. */
  method ReplaceFirst<T>(a: MutableArray<T>, element: T) returns (outcome: Outcome<ArrayError>)
    modifies a
    ensures outcome.Fail? <==> |old(a.elements)| == 0
    ensures outcome.Fail? ==> outcome.error == RemovalError && a.elements == old(a.elements)
    ensures outcome.Pass? ==> a.elements == old(a.elements)[0 := element]
  {
    if |a.elements| == 0 {
      return Fail(RemovalError);
    }
    var _ := a.RemoveFirst();
    a.InsertAt(element, 0);
    outcome := Pass;
  }
}
