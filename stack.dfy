/** `Stack` (Collections/Stack.swift): a last-in first-out stack over an array
    whose end is the top. */
module Stacks {
  import opened Wrappers

  /** The elements in the opposite order. */
  function Reverse<T>(s: seq<T>): (r: seq<T>)
    ensures |r| == |s|
    ensures forall i :: 0 <= i < |s| ==> r[i] == s[|s| - 1 - i]
  {
    if |s| == 0 then [] else Reverse(s[1..]) + [s[0]]
  }

  /** The elements after a `push`. */
  function Pushed<T>(s: seq<T>, x: T): seq<T>
  {
    s + [x]
  }

  /** What `pop()` returns and leaves. */
  function Popped<T>(s: seq<T>): (Option<T>, seq<T>)
  {
    if |s| == 0 then (None, s) else (Some(s[|s| - 1]), s[..|s| - 1])
  }

  /** What `pop(amount:)` returns and leaves: nothing unless more than
      `amount` elements are present, and then the top `amount` elements,
      the old top first. */
  function PoppedAmount<T>(s: seq<T>, amount: nat): Option<(seq<T>, seq<T>)>
  {
    if |s| <= amount then None
    else Some((Reverse(s[|s| - amount..]), s[..|s| - amount]))
  }

  /** A `pop` undoes a `push`: it returns the pushed item and restores the
      elements; and the top after a push is the pushed item. */
  lemma PopUndoesPush<T>(s: seq<T>, x: T)
    ensures Popped(Pushed(s, x)) == (Some(x), s)
  {
    assert Pushed(s, x)[..|s|] == s;
  }

  /** Popping `amount` items splits the stack: what is left, followed by the
      popped items turned back over, is the old stack; and exactly `amount`
      items are popped. */
  lemma PoppedAmountSplits<T>(s: seq<T>, amount: nat)
    ensures PoppedAmount(s, amount).None? <==> |s| <= amount
    ensures PoppedAmount(s, amount).Some? ==>
              var (popped, rest) := PoppedAmount(s, amount).value;
              |popped| == amount && rest + Reverse(popped) == s
  {
    if |s| > amount {
      var popped := Reverse(s[|s| - amount..]);
      var back := Reverse(popped);
      assert forall i :: 0 <= i < amount ==> back[i] == s[|s| - amount + i];
      assert back == s[|s| - amount..];
      assert s == s[..|s| - amount] + s[|s| - amount..];
    }
  }

  class Stack<T> {
    var elements: seq<T>

    /** `init(_:)` and the array-literal initialiser. */
    constructor (source: seq<T>)
      ensures elements == source
    {
      elements := source;
    }

    /** `top`: the last element. */
    function Top(): (r: Option<T>)
      reads this
      ensures r.None? <==> |elements| == 0
      ensures r.Some? ==> r.value == elements[|elements| - 1]
      ensures r == Popped(elements).0
    {
      if |elements| == 0 then None else Some(elements[|elements| - 1])
    }

    /** `push(_:)`. */
    method Push(item: T)
      modifies this
      ensures elements == Pushed(old(elements), item)
      ensures Top() == Some(item)
    {
      elements := elements + [item];
    }

    /** `pushing(_:)`: a new stack; the receiver is unchanged. */
    method Pushing(item: T) returns (copy: Stack<T>)
      ensures fresh(copy)
      ensures copy.elements == Pushed(elements, item)
    {
      copy := new Stack(elements);
      copy.Push(item);
    }

    /** `pop()`. */
    method Pop() returns (r: Option<T>)
      modifies this
      ensures (r, elements) == Popped(old(elements))
    {
      if |elements| == 0 {
        r := None;
      } else {
        r := Some(elements[|elements| - 1]);
        elements := elements[..|elements| - 1];
      }
    }

    /** `pop(amount:)`. A negative amount passes the guard and then traps in
        the range `0..<amount`, so it is excluded. */
    method PopAmount(amount: int) returns (r: Option<Stack<T>>)
      requires amount >= 0
      modifies this
      ensures r.None? ==> elements == old(elements)
      ensures r.Some? ==> fresh(r.value)
      ensures PoppedAmount(old(elements), amount) ==
                (if r.None? then None else Some((r.value.elements, elements)))
    {
      if |elements| <= amount {
        return None;
      }
      var poppedItems := new Stack([]);
      var n := |elements|;
      for i := 0 to amount
        invariant elements == old(elements)[..n - i]
        invariant poppedItems.elements == Reverse(old(elements)[n - i..])
      {
        var top := Pop();
        assert old(elements)[n - (i + 1)..] == [top.value] + old(elements)[n - i..];
        poppedItems.Push(top.value);
      }
      r := Some(poppedItems);
    }

    /** `endIndex`: the number of elements. */
    function EndIndex(): (r: int)
      reads this
      ensures r == |elements| && r >= 0
    {
      |elements|
    }

    /** The positional subscript counts from the bottom: index 0 is the first
        element pushed, and the top is at `endIndex - 1`. */
    function At(index: int): (r: T)
      requires 0 <= index < |elements|
      reads this
      ensures r == elements[index]
      ensures index == EndIndex() - 1 ==> Top() == Some(r)
    {
      elements[index]
    }

    /** `index(after:)`, which traps at `endIndex`. */
    function IndexAfter(i: int): (r: int)
      requires i != EndIndex()
      reads this
      ensures r - 1 == i && r != EndIndex() + 1
    {
      i + 1
    }

    /** `destructured`: the top and the rest, from a copy; the receiver is
        unchanged. */
    method Destructured() returns (r: Option<(T, Stack<T>)>)
      ensures r.None? <==> |elements| == 0
      ensures r.Some? ==> fresh(r.value.1)
                          && (Some(r.value.0), r.value.1.elements) == Popped(elements)
    {
      if |elements| == 0 {
        return None;
      }
      var copy := new Stack(elements);
      var top := copy.Pop();
      r := Some((top.value, copy));
    }
  }

  /** `==`: the element arrays are equal. */
  function Equals<T(==)>(lhs: Stack<T>, rhs: Stack<T>): (b: bool)
    reads lhs, rhs
    ensures b ==> lhs.Top() == rhs.Top()
    ensures b <==> |lhs.elements| == |rhs.elements|
                   && forall i :: 0 <= i < |lhs.elements| ==> lhs.elements[i] == rhs.elements[i]
  {
    lhs.elements == rhs.elements
  }
}
