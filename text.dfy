/**
 * The Python string operations the core relies on: `str.strip()`, `str.lower()`
 * and `str.replace(" ", "")`.
 */
module Text {

  /** Python's `str.isspace()` for one character (the Unicode whitespace set). */
  predicate IsSpace(c: char) {
    ('\U{0009}' <= c <= '\U{000D}') || ('\U{001C}' <= c <= '\U{0020}')
    || c == '\U{0085}' || c == '\U{00A0}' || c == '\U{1680}'
    || ('\U{2000}' <= c <= '\U{200A}') || c == '\U{2028}' || c == '\U{2029}'
    || c == '\U{202F}' || c == '\U{205F}' || c == '\U{3000}'
  }

  /** `s.lstrip()`. */
  function StripLeft(s: string): string {
    if s != [] && IsSpace(s[0]) then StripLeft(s[1..]) else s
  }

  /** `s.rstrip()`. */
  function StripRight(s: string): string {
    if s != [] && IsSpace(s[|s| - 1]) then StripRight(s[..|s| - 1]) else s
  }

  /** `s.strip()`. */
  function Strip(s: string): string {
    StripRight(StripLeft(s))
  }

  /** `lstrip` keeps the longest suffix of `s` that does not start with whitespace. */
  lemma {:induction false} StripLeftSpec(s: string)
    ensures var r := StripLeft(s);
      && |r| <= |s| && r == s[|s| - |r|..]
      && (forall k :: 0 <= k < |s| - |r| ==> IsSpace(s[k]))
      && (r != [] ==> !IsSpace(r[0]))
  {
    if s != [] && IsSpace(s[0]) {
      var t := s[1..];
      StripLeftSpec(t);
      var r := StripLeft(t);
      assert StripLeft(s) == r;
      assert t[|t| - |r|..] == s[|s| - |r|..];
      forall k | 0 <= k < |s| - |r|
        ensures IsSpace(s[k])
      {
        if k > 0 {
          assert s[k] == t[k - 1];
        }
      }
    }
  }

  /** `rstrip` keeps the longest prefix of `s` that does not end with whitespace. */
  lemma {:induction false} StripRightSpec(s: string)
    ensures var r := StripRight(s);
      && |r| <= |s| && r == s[..|r|]
      && (forall k :: |r| <= k < |s| ==> IsSpace(s[k]))
      && (r != [] ==> !IsSpace(r[|r| - 1]))
  {
    if s != [] && IsSpace(s[|s| - 1]) {
      StripRightSpec(s[..|s| - 1]);
    }
  }

  /** A string is blank after `strip()` exactly when every character is whitespace. */
  lemma {:induction false} StripEmptyIffBlank(s: string)
    ensures Strip(s) == [] <==> forall k :: 0 <= k < |s| ==> IsSpace(s[k])
  {
    var l := StripLeft(s);
    StripLeftSpec(s);
    StripRightSpec(l);
    if Strip(s) != [] {
      var r := Strip(s);
      assert r[0] == l[0] == s[|s| - |l|];
    }
  }

  /** Stripping twice is stripping once. */
  lemma {:induction false} StripIdempotent(s: string)
    ensures Strip(Strip(s)) == Strip(s)
  {
    var l := StripLeft(s);
    var r := Strip(s);
    StripLeftSpec(s);
    StripRightSpec(l);
    if r != [] {
      assert r[0] == l[0];
      assert StripLeft(r) == r;
      assert StripRight(r) == r;
    }
  }

  /**
   * The upper-case letters whose lower case is one character further along
   * the code table: A to Z and the capitals of Latin-1 (not the
   * multiplication sign) by 32, Greek capitals (not the unassigned U+03A2)
   * by 32, Cyrillic capitals by 32, and the Cyrillic capitals U+0400 to
   * U+040F by 80.
   */
  function CaseOffset(c: char): (n: int)
    ensures n in {0, 32, 80}
  {
    if 'A' <= c <= 'Z' then 32
    else if '\U{00C0}' <= c <= '\U{00DE}' && c != '\U{00D7}' then 32
    else if '\U{0391}' <= c <= '\U{03A9}' && c != '\U{03A2}' then 32
    else if '\U{0410}' <= c <= '\U{042F}' then 32
    else if '\U{0400}' <= c <= '\U{040F}' then 80
    else 0
  }

  /** `c.lower()` for one character, for the letters `CaseOffset` knows. */
  function LowerChar(c: char): (d: char)
    ensures d as int == c as int + CaseOffset(c)
    ensures 'A' <= c <= 'Z' ==> 'a' <= d <= 'z'
    ensures 'a' <= c <= 'z' ==> d == c
    ensures !('A' <= d <= 'Z')
  {
    (c as int + CaseOffset(c)) as char
  }

  /** `s.lower()`, character by character. */
  function Lower(s: string): (r: string)
    ensures |r| == |s|
    ensures forall k :: 0 <= k < |s| ==> r[k] == LowerChar(s[k])
  {
    if s == [] then [] else [LowerChar(s[0])] + Lower(s[1..])
  }

  /** `s.replace(" ", "")`: every other character, in order. */
  function RemoveSpaces(s: string): (r: string)
    ensures |r| <= |s|
    ensures ' ' !in r
    ensures forall c :: c in r <==> c in s && c != ' '
  {
    if s == [] then []
    else if s[0] == ' ' then RemoveSpaces(s[1..])
    else [s[0]] + RemoveSpaces(s[1..])
  }

  /**
   * Removing spaces keeps the order of what stays: it works piece by piece,
   * drops a space and keeps any other character.
   */
  lemma {:induction false} RemoveSpacesAppend(a: string, b: string)
    ensures RemoveSpaces(a + b) == RemoveSpaces(a) + RemoveSpaces(b)
    ensures RemoveSpaces(" ") == []
    ensures forall c :: c != ' ' ==> RemoveSpaces([c]) == [c]
  {
    if a == [] {
      assert a + b == b;
    } else {
      assert (a + b)[0] == a[0];
      assert (a + b)[1..] == a[1..] + b;
      RemoveSpacesAppend(a[1..], b);
    }
    forall c | c != ' '
      ensures RemoveSpaces([c]) == [c]
    {
      assert [c][1..] == [];
    }
    assert " "[1..] == [];
  }
}
