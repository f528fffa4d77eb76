/** `adjacentPairs(wrapped:)` (Collections/AdjacentPairs.swift). */
module AdjacentPairs {

  /** Each element paired with the next; when `wrapped`, the last is also
      paired with the first. An empty collection has no pairs. */
  function AdjacentPairs<T>(s: seq<T>, wrapped: bool): (r: seq<(T, T)>)
    ensures |s| == 0 ==> r == []
    ensures |s| > 0 ==> |r| == if wrapped then |s| else |s| - 1
    ensures forall i :: 0 <= i < |s| - 1 ==> r[i] == (s[i], s[i + 1])
    ensures |s| > 0 && wrapped ==> r[|s| - 1] == (s[|s| - 1], s[0])
  {
    if |s| == 0 then []
    else
      var notWrapped := seq(|s| - 1, i requires 0 <= i < |s| - 1 => (s[i], s[i + 1]));
      if wrapped then notWrapped + [(s[|s| - 1], s[0])] else notWrapped
  }

  /** Read off the pairs: the first components run through all but the last
      element and the second components through all but the first; wrapped,
      they run through the whole sequence and through it rotated by one. */
  lemma PairsWalkTheSequence<T>(s: seq<T>)
    requires |s| > 0
    ensures var p := AdjacentPairs(s, false);
            seq(|p|, i requires 0 <= i < |p| => p[i].0) == s[..|s| - 1]
            && seq(|p|, i requires 0 <= i < |p| => p[i].1) == s[1..]
    ensures var w := AdjacentPairs(s, true);
            seq(|w|, i requires 0 <= i < |w| => w[i].0) == s
            && seq(|w|, i requires 0 <= i < |w| => w[i].1) == s[1..] + [s[0]]
  {
  }

  /** A single element has no unwrapped pair and pairs with itself when
      wrapped. */
  lemma SingleElement<T>(x: T)
    ensures AdjacentPairs([x], false) == []
    ensures AdjacentPairs([x], true) == [(x, x)]
  {
  }
}
