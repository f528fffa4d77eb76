/** `KeyPath` (Collections/KeyPath.swift): a sequence of dictionary keys of
    any hashable type. `AnyHashable` is modelled by the two kinds of key the
    library builds: strings and integers. */
module KeyPaths {

  datatype Key = StringKey(s: string) | IntKey(i: int)

  /** The number of occurrences of `sep` in `s`. */
  function Occurrences(s: string, sep: char): nat
  {
    if |s| == 0 then 0 else (if s[0] == sep then 1 else 0) + Occurrences(s[1..], sep)
  }

  /** `components(separatedBy:)` for a one-character separator: the pieces
      between separators, empty pieces included, so `""` gives `[""]`. */
  function Components(s: string, sep: char): (r: seq<string>)
    ensures |r| >= 1
    decreases |s|
  {
    if |s| == 0 then [""]
    else
      var rest := Components(s[1..], sep);
      if s[0] == sep then [""] + rest else [[s[0]] + rest[0]] + rest[1..]
  }

  /** The pieces glued back together with the separator between them. */
  function Join(parts: seq<string>, sep: char): string
    requires |parts| >= 1
  {
    if |parts| == 1 then parts[0] else parts[0] + [sep] + Join(parts[1..], sep)
  }

  /** Splitting gives one more piece than there are separators, no piece
      contains the separator, and joining the pieces restores the string. */
  lemma {:induction false} ComponentsSpec(s: string, sep: char)
    ensures |Components(s, sep)| == Occurrences(s, sep) + 1
    ensures forall i :: 0 <= i < |Components(s, sep)| ==> sep !in Components(s, sep)[i]
    ensures Join(Components(s, sep), sep) == s
    decreases |s|
  {
    if |s| > 0 {
      var rest := Components(s[1..], sep);
      ComponentsSpec(s[1..], sep);
      if s[0] == sep {
        assert ([""] + rest)[1..] == rest;
      } else {
        var r := Components(s, sep);
        assert r[0] == [s[0]] + rest[0];
        assert sep !in r[0];
        if |rest| > 1 {
          assert r[1..] == rest[1..];
          assert Join(rest, sep) == rest[0] + [sep] + Join(rest[1..], sep);
        }
        assert s == [s[0]] + s[1..];
      }
    }
  }

  datatype KeyPath = KeyPath(keys: seq<Key>)
  {
    /** `endIndex`: the number of keys. */
    function EndIndex(): (r: int)
      ensures r == |keys|
    {
      |keys|
    }

    /** The subscript: the key at `index`. */
    function At(index: int): (r: Key)
      requires 0 <= index < |keys|
      ensures r == keys[index] && r in keys
    {
      keys[index]
    }

    /** `index(after:)`, which traps at `endIndex`. */
    function IndexAfter(i: int): (r: int)
      requires i != EndIndex()
      ensures r - 1 == i
    {
      i + 1
    }
  }

  /** `init(_:)` and the array-literal initialiser: the keys as given. */
  function FromKeys(keys: seq<Key>): (r: KeyPath)
    ensures r.EndIndex() == |keys|
    ensures forall i :: 0 <= i < |keys| ==> r.At(i) == keys[i]
  {
    KeyPath(keys)
  }

  /** The string-literal initialiser: the string's components between dots,
      each a string key. */
  function FromString(value: string): (r: KeyPath)
    ensures r.EndIndex() == |Components(value, '.')|
    ensures forall i :: 0 <= i < r.EndIndex() ==>
              r.At(i) == StringKey(Components(value, '.')[i])
  {
    var parts := Components(value, '.');
    KeyPath(seq(|parts|, i requires 0 <= i < |parts| => StringKey(parts[i])))
  }

  /** A string-literal path has one key more than the string has dots, and
      its keys joined with dots give the string back; `"a.b.2.ok.g"` has five. */
  lemma FromStringSpec(value: string)
    ensures FromString(value).EndIndex() == Occurrences(value, '.') + 1
    ensures Join(Components(value, '.'), '.') == value
    ensures FromString("a.b.2.ok.g").EndIndex() == 5
    ensures FromString("a.b.2.ok.g").At(0) == StringKey("a")
  {
    ComponentsSpec(value, '.');
    ComponentsSpec("a.b.2.ok.g", '.');
    DotsOfExample();
    FirstComponentOfExample();
  }

  lemma DotsOfExample()
    ensures Occurrences("a.b.2.ok.g", '.') == 4
  {
    assert "g"[1..] == "";
    assert Occurrences("g", '.') == 0;
    assert ".g"[1..] == "g";
    assert Occurrences(".g", '.') == 1;
    assert "k.g"[1..] == ".g";
    assert Occurrences("k.g", '.') == 1;
    assert "ok.g"[1..] == "k.g";
    assert Occurrences("ok.g", '.') == 1;
    assert ".ok.g"[1..] == "ok.g";
    assert Occurrences(".ok.g", '.') == 2;
    assert "2.ok.g"[1..] == ".ok.g";
    assert Occurrences("2.ok.g", '.') == 2;
    assert ".2.ok.g"[1..] == "2.ok.g";
    assert Occurrences(".2.ok.g", '.') == 3;
    assert "b.2.ok.g"[1..] == ".2.ok.g";
    assert Occurrences("b.2.ok.g", '.') == 3;
    assert ".b.2.ok.g"[1..] == "b.2.ok.g";
    assert Occurrences(".b.2.ok.g", '.') == 4;
    assert "a.b.2.ok.g"[1..] == ".b.2.ok.g";
    assert Occurrences("a.b.2.ok.g", '.') == 4;
  }

  lemma FirstComponentOfExample()
    ensures Components("a.b.2.ok.g", '.')[0] == "a"
  {
    assert "a.b.2.ok.g"[1..] == ".b.2.ok.g";
    assert Components(".b.2.ok.g", '.')[0] == "";
  }
}
