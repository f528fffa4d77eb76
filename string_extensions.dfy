/** The `String` subscripts and `destructured` of
    Collections/StringExtensions.swift. A Swift `Character` is modelled by a
    Dafny `char`. */
module StringExtensions {
  import opened Wrappers

  /** The `Character?` subscript: nothing at or past the end. A negative index
      traps in `index(_:offsetBy:)`, so it is excluded. */
  function CharAt(s: string, index: int): (r: Option<char>)
    requires index >= 0
    ensures r.None? <==> index >= |s|
    ensures r.Some? ==> r.value == s[index]
  {
    if index >= |s| then None else Some(s[index])
  }

  /** The `String?` subscript: the one-character string, or nothing. */
  function StringAt(s: string, index: int): (r: Option<string>)
    requires index >= 0
    ensures r.None? <==> index >= |s|
    ensures r.Some? ==> r.value == [s[index]] && r.value == s[index..index + 1]
  {
    match CharAt(s, index)
    case None => None
    case Some(c) => Some([c])
  }

  /** The `Range<Int>` subscript: the characters from `lowerBound` up to, not
      including, `upperBound`; offsets outside the string trap. */
  function Substring(s: string, lowerBound: int, upperBound: int): (r: string)
    requires 0 <= lowerBound <= upperBound <= |s|
    ensures |r| == upperBound - lowerBound
    ensures forall i :: 0 <= i < |r| ==> r[i] == s[lowerBound + i]
  {
    s[lowerBound..upperBound]
  }

  /** `destructured`: nothing for the empty string, otherwise the first
      character as a string and the rest. */
  function Destructured(s: string): (r: Option<(string, string)>)
    ensures r.None? <==> s == ""
    ensures r.Some? ==> |r.value.0| == 1 && r.value.0 + r.value.1 == s
  {
    match StringAt(s, 0)
    case None => None
    case Some(head) =>
      assert s == head + s[1..|s|];
      Some((head, Substring(s, 1, |s|)))
  }

  /** `"123"` splits into `"1"` and `"23"`, `"1"` leaves an empty tail, and
      in `"string"` index 4 is `'n'` and index 2 is `"r"`. */
  lemma Examples()
    ensures Destructured("123") == Some(("1", "23"))
    ensures Destructured("1") == Some(("1", ""))
    ensures Destructured("") == None
    ensures CharAt("string", 4) == Some('n') && CharAt("", 0) == None
    ensures StringAt("string", 2) == Some("r")
  {
    assert "123"[1..3] == "23";
  }
}
