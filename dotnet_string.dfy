/** The parts of .NET's System.String and System.Char that the SQLite provider relies on:
    String.IndexOf(char), String.Trim() and Char.IsWhiteSpace. Strings are sequences of
    characters; slicing takes the place of String.Substring, whose range checks become
    the slice bounds Dafny must prove. */
module DotNetString {

  /** Code points of Unicode category Zs, the space separators. */
  const SpaceSeparators: set<int> :=
    {0x20, 0xA0, 0x1680, 0x2000, 0x2001, 0x2002, 0x2003, 0x2004, 0x2005, 0x2006, 0x2007,
     0x2008, 0x2009, 0x200A, 0x202F, 0x205F, 0x3000}

  /** Code points of the categories Zl and Zp, the line and paragraph separators. */
  const LineAndParagraphSeparators: set<int> := {0x2028, 0x2029}

  /** The control characters that also count as white space. */
  const WhiteSpaceControls: set<int> := {0x09, 0x0A, 0x0B, 0x0C, 0x0D, 0x85}

  /** Char.IsWhiteSpace, tested by code-point ranges. */
  predicate IsWhiteSpace(c: char)
  {
    var n := c as int;
    (0x09 <= n <= 0x0D) || n == 0x20 || n == 0x85 || n == 0xA0 || n == 0x1680 ||
    (0x2000 <= n <= 0x200A) || n == 0x2028 || n == 0x2029 || n == 0x202F ||
    n == 0x205F || n == 0x3000
  }

  /** Char.IsWhiteSpace accepts exactly the space, line and paragraph separators and
      the white-space control characters. */
  lemma WhiteSpaceCategories(c: char)
    ensures IsWhiteSpace(c) <==>
      c as int in SpaceSeparators + LineAndParagraphSeparators + WhiteSpaceControls
  {
  }

  /** String.IndexOf(char): the index of the first occurrence of c, or -1 when s has none. */
  function IndexOf(s: string, c: char): (r: int)
    ensures -1 <= r < |s|
    ensures r == -1 <==> c !in s
    ensures 0 <= r ==> s[r] == c && c !in s[..r]
  {
    if s == [] then -1
    else if s[0] == c then 0
    else
      var k := IndexOf(s[1..], c);
      if k == -1 then -1
      else
        assert s[..k + 1] == [s[0]] + s[1..][..k];
        k + 1
  }

  /** The index of the first character that is not white space, or |s| when there is
      none. */
  function LeadingWhiteSpace(s: string): (n: nat)
    ensures n <= |s|
    ensures forall k :: 0 <= k < n ==> IsWhiteSpace(s[k])
    ensures n < |s| ==> !IsWhiteSpace(s[n])
  {
    if s != [] && IsWhiteSpace(s[0]) then 1 + LeadingWhiteSpace(s[1..]) else 0
  }

  /** The prefix of s left after dropping its trailing white space. */
  function TrimEnd(s: string): (r: string)
    ensures |r| <= |s| && r == s[..|r|]
    ensures forall k :: |r| <= k < |s| ==> IsWhiteSpace(s[k])
    ensures r != [] ==> !IsWhiteSpace(r[|r| - 1])
  {
    if s != [] && IsWhiteSpace(s[|s| - 1]) then TrimEnd(s[..|s| - 1]) else s
  }

  /** No white space at either end. */
  predicate IsTrimmed(s: string)
  {
    s != [] ==> !IsWhiteSpace(s[0]) && !IsWhiteSpace(s[|s| - 1])
  }

  /** String.Trim(): the substring of s from its first character that is not white
      space, cut after its last such character; only white space is dropped. */
  function Trim(s: string): (r: string)
    ensures IsTrimmed(r)
    ensures var i := LeadingWhiteSpace(s);
      i + |r| <= |s| && r == s[i..i + |r|] &&
      (forall k :: 0 <= k < i ==> IsWhiteSpace(s[k])) &&
      (forall k :: i + |r| <= k < |s| ==> IsWhiteSpace(s[k]))
  {
    var t := s[LeadingWhiteSpace(s)..];
    var r := TrimEnd(t);
    assert r != [] ==> r[0] == t[0];
    r
  }

  /** Every character Trim keeps comes from its input. */
  lemma TrimKeepsOnlyInputChars(s: string, c: char)
    requires c in Trim(s)
    ensures c in s
  {
    var r := Trim(s);
    var i := LeadingWhiteSpace(s);
    var k :| 0 <= k < |r| && r[k] == c;
    assert s[i + k] == c;
  }

  /** Trim leaves a string without white space at its ends unchanged. */
  lemma TrimOfTrimmed(s: string)
    requires IsTrimmed(s)
    ensures Trim(s) == s
  {
    assert LeadingWhiteSpace(s) == 0;
    assert TrimEnd(s) == s;
  }

  /** Trim is idempotent. */
  lemma TrimIdempotent(s: string)
    ensures Trim(Trim(s)) == Trim(s)
  {
    TrimOfTrimmed(Trim(s));
  }

  /** IndexOf finds c just after a prefix that does not contain it. */
  lemma {:induction false} IndexOfAfterPrefix(prefix: string, c: char, rest: string)
    requires c !in prefix
    ensures IndexOf(prefix + [c] + rest, c) == |prefix|
  {
    if prefix != [] {
      assert (prefix + [c] + rest)[1..] == prefix[1..] + [c] + rest;
      IndexOfAfterPrefix(prefix[1..], c, rest);
    }
  }
}
