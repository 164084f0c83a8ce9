/** The two members of C++ std::string that the decoder relies on, with their
    exact edge cases. A `string` here stands for a std::string: one char per byte. */
module StdString {
  import opened Options

  function Min(a: nat, b: nat): nat {
    if a <= b then a else b
  }

  /** std::string::substr(pos, count): throws std::out_of_range when pos is
      past the end; otherwise takes at most count characters from pos on. */
  function Substr(s: string, pos: nat, count: nat): (r: Option<string>)
    ensures r.None? <==> pos > |s|
    ensures r.Some? ==> |r.value| == Min(count, |s| - pos)
    ensures r.Some? ==> forall i :: 0 <= i < |r.value| ==> r.value[i] == s[pos + i]
    ensures pos <= |s| && pos + count >= |s| ==> r == Some(s[pos..])
    ensures pos + count <= |s| ==> r == Some(s[pos..pos + count])
  {
    if pos > |s| then None
    else
      var r := s[pos..pos + Min(count, |s| - pos)];
      assert pos + count >= |s| ==> r == s[pos..];
      Some(r)
  }

  /** std::string::substr(0, count), which never throws: the first count
      characters, or all of s when it is shorter. */
  function Head(s: string, count: nat): (r: string)
    ensures |r| == Min(count, |s|)
    ensures r == s[..|r|]
    ensures Substr(s, 0, count) == Some(r)
  {
    s[..Min(count, |s|)]
  }

  /** std::string::operator[](pos) for pos <= size(): since C++11 the
      character at position size() is the terminating '\0'. */
  function At(s: string, pos: nat): (c: char)
    requires pos <= |s|
    ensures pos < |s| ==> c == s[pos]
    ensures pos == |s| ==> c == '\0'
  {
    if pos < |s| then s[pos] else '\0'
  }
}
