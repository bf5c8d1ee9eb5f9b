/** Strings that end with a NUL, inside a buffer, and searching a string for a character. */
module CStrings {

  predicate IsStringAt(buffer: seq<char>, offset: nat, s: string) {
    offset + |s| < |buffer| && buffer[offset..offset + |s|] == s && buffer[offset + |s|] == '\0' && '\0' !in s
  }

  // A string stays where it is when the buffer gets longer.
  lemma StaysReadable(buffer: seq<char>, longer: seq<char>, offset: nat, s: string)
    requires buffer <= longer && IsStringAt(buffer, offset, s)
    ensures IsStringAt(longer, offset, s)
  {
    assert longer[offset..offset + |s|] == buffer[offset..offset + |s|];
  }

  // Where `c` is first, or the length of the string.
  function IndexOf(s: string, c: char): (i: nat)
    ensures i <= |s| && c !in s[..i] && (i < |s| ==> s[i] == c)
  {
    if s == "" || s[0] == c then 0
    else
      var i := IndexOf(s[1..], c);
      assert s[..i + 1] == [s[0]] + s[1..][..i];
      i + 1
  }

  lemma {:induction false} IndexOfIs(a: string, c: char, b: string)
    requires c !in a
    ensures IndexOf(a, c) == |a| && IndexOf(a + [c] + b, c) == |a|
  {
    if a != "" {
      assert (a + [c] + b)[1..] == a[1..] + [c] + b;
      IndexOfIs(a[1..], c, b);
    }
  }
}
