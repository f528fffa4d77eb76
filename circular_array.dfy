/** `CircularArray` (Collections/CircularArray.swift): an array read through
    indices taken modulo its length. */
module CircularArrays {
  import ArrayExtensions

  /** Swift's `%` on integers: the remainder truncated toward zero, so it
      takes the sign of the dividend. */
  function Rem(dividend: int, modulus: int): (r: int)
    requires modulus > 0
    ensures dividend >= 0 ==> 0 <= r < modulus
    ensures dividend < 0 ==> -modulus < r <= 0
  {
    if dividend >= 0 then dividend % modulus else -((-dividend) % modulus)
  }

  /** The private `mod`: the remainder, moved up by the modulus when negative. */
  function Mod(dividend: int, modulus: int): (r: int)
    requires modulus > 0
    ensures 0 <= r < modulus
  {
    var result := Rem(dividend, modulus);
    if result < 0 then result + modulus else result
  }

  /** If `d == q * m + r` with `0 <= r < m`, then `r` is `d % m`. */
  lemma EuclideanUnique(d: int, m: int, q: int, r: int)
    requires m > 0 && 0 <= r < m && d == q * m + r
    ensures d % m == r && d / m == q
  {
    var q0, r0 := d / m, d % m;
    assert d == q0 * m + r0;
    if q > q0 {
      MultipleAtLeast(q - q0, m);
    } else if q < q0 {
      MultipleAtLeast(q0 - q, m);
    }
  }

  lemma MultipleAtLeast(x: int, m: int)
    requires x >= 1 && m > 0
    ensures x * m >= m
  {
    assert x * m == (x - 1) * m + m;
    assert (x - 1) * m >= 0;
  }

  /** `mod` is the true (Euclidean) modulo: it lies in `[0, m)` and differs
      from the dividend by a multiple of `m`. */
  lemma ModIsEuclidean(d: int, m: int)
    requires m > 0
    ensures Mod(d, m) == d % m
    ensures (d - Mod(d, m)) % m == 0
  {
    if d < 0 {
      var n := -d;
      var q, r := n / m, n % m;
      assert n == q * m + r;
      if r == 0 {
        EuclideanUnique(d, m, -q, 0);
      } else {
        assert d == (-q - 1) * m + (m - r);
        EuclideanUnique(d, m, -q - 1, m - r);
      }
    }
    EuclideanUnique(d - d % m, m, d / m, 0);
  }

  /** Adding the modulus does not change `mod`. */
  lemma ModPeriodic(d: int, m: int)
    requires m > 0
    ensures Mod(d + m, m) == Mod(d, m)
  {
    ModIsEuclidean(d, m);
    ModIsEuclidean(d + m, m);
    EuclideanUnique(d + m, m, d / m + 1, d % m);
  }

  datatype CircularArray<T> = CircularArray(storage: seq<T>)
  {
    /** `circularIndex`: `mod(index, count)`; `count` zero divides by zero. */
    function CircularIndex(index: int): (r: int)
      requires |storage| > 0
      ensures 0 <= r < |storage|
      ensures r == index % |storage|
      ensures 0 <= index < |storage| ==> r == index
    {
      ModIsEuclidean(index, |storage|);
      if 0 <= index < |storage| then
        EuclideanUnique(index, |storage|, 0, index);
        Mod(index, |storage|)
      else
      Mod(index, |storage|)
    }

    /** `subscript(circular:)`. */
    function Circular(index: int): (r: T)
      requires |storage| > 0
      ensures r == storage[index % |storage|]
      ensures 0 <= index < |storage| ==> r == storage[index]
    {
      storage[CircularIndex(index)]
    }

    /** `subscript(from:through:)`: from the real start through the real end,
        wrapping from the back to the front when the start comes after the
        end. */
    function FromThrough(start: int, end: int): (r: seq<T>)
      requires |storage| > 0
      ensures var s, e := CircularIndex(start), CircularIndex(end);
              |r| == if s <= e then e - s + 1 else |storage| - s + e + 1
      ensures forall k :: 0 <= k < |r| ==>
                r[k] == storage[(CircularIndex(start) + k) % |storage|]
      ensures |r| > 0 && r[0] == Circular(start) && r[|r| - 1] == Circular(end)
    {
      var s := CircularIndex(start);
      var e := CircularIndex(end);
      if s > e then
        var r := storage[s..] + storage[..e + 1];
        WrappedElements(storage, s, e, r);
        r
      else
        var r := storage[s..e + 1];
        StraightElements(storage, s, e, r);
        r
    }

    /** `subscript(after:upTo:)`: from the index after `start` through the one
        before `end`. */
    function AfterUpTo(start: int, end: int): (r: seq<T>)
      requires |storage| > 0
      ensures |r| > 0 && r[0] == Circular(start + 1) && r[|r| - 1] == Circular(end - 1)
      ensures r == FromThrough(start + 1, end - 1)
    {
      FromThrough(start + 1, end - 1)
    }

    /** `removing(at:)`: a new circular array without that element; the
        receiver is a value and is not changed. */
    function Removing(index: int): (r: CircularArray<T>)
      requires 0 <= index < |storage|
      ensures |r.storage| == |storage| - 1
      ensures r.storage == storage[..index] + storage[index + 1..]
      ensures multiset(r.storage) + multiset{storage[index]} == multiset(storage)
    {
      CircularArray(ArrayExtensions.WithoutElement(storage, index))
    }

    /** `index(after:)`, which traps unless `i < endIndex`. */
    function IndexAfter(i: int): (r: int)
      requires i < |storage|
      ensures r <= |storage| && r - 1 == i
    {
      i + 1
    }

    /** `index(before:)`, which traps unless `i > startIndex`. */
    function IndexBefore(i: int): (r: int)
      requires i > 0
      ensures r >= 0 && r + 1 == i
    {
      i - 1
    }
  }

  /** The wrapped range of `subscript(from:through:)`: from `s` to the back,
      then from the front through `e`. */
  lemma WrappedElements<T>(storage: seq<T>, s: int, e: int, r: seq<T>)
    requires 0 <= e < s < |storage| && r == storage[s..] + storage[..e + 1]
    ensures forall k :: 0 <= k < |r| ==> r[k] == storage[(s + k) % |storage|]
  {
    var n := |storage|;
    forall k | 0 <= k < |r|
      ensures r[k] == storage[(s + k) % n]
    {
      if k < n - s {
        EuclideanUnique(s + k, n, 0, s + k);
      } else {
        EuclideanUnique(s + k, n, 1, s + k - n);
      }
    }
  }

  /** The unwrapped range of `subscript(from:through:)`. */
  lemma StraightElements<T>(storage: seq<T>, s: int, e: int, r: seq<T>)
    requires 0 <= s <= e < |storage| && r == storage[s..e + 1]
    ensures forall k :: 0 <= k < |r| ==> r[k] == storage[(s + k) % |storage|]
  {
    forall k | 0 <= k < |r|
      ensures r[k] == storage[(s + k) % |storage|]
    {
      EuclideanUnique(s + k, |storage|, 0, s + k);
    }
  }

  /** Logical indices one length apart read the same element. */
  lemma CircularPeriodic<T>(a: CircularArray<T>, i: int)
    requires |a.storage| > 0
    ensures a.Circular(i + |a.storage|) == a.Circular(i)
  {
    ModPeriodic(i, |a.storage|);
  }
}
