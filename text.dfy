/** The System.String operations the compilers use, on strings as
    sequences of UTF-16 code units (`char`), compared ordinally. */
module Text {

  /** `s.StartsWith(p)`: p is a prefix of s. */
  predicate HasPrefix(s: string, p: string) {
    |p| <= |s| && s[..|p|] == p
  }

  /** `s.EndsWith(p)`: p is a suffix of s. */
  predicate HasSuffix(s: string, p: string) {
    |p| <= |s| && s[|s| - |p|..] == p
  }

  /** p occurs in s at offset i. */
  predicate OccursAt(s: string, p: string, i: int) {
    0 <= i <= |s| - |p| && s[i..i + |p|] == p
  }

  /** `s.Contains(p)`: p occurs in s at some offset. */
  predicate HasInfix(s: string, p: string) {
    exists i :: 0 <= i <= |s| - |p| && OccursAt(s, p, i)
  }

  /** The characters `char.IsWhiteSpace` accepts (Unicode separators and the
      C0/C1 white-space controls), which `String.Trim()` removes. */
  const WhiteSpace: set<char> := {
    '\U{0009}', '\U{000A}', '\U{000B}', '\U{000C}', '\U{000D}', '\U{0020}',
    '\U{0085}', '\U{00A0}', '\U{1680}',
    '\U{2000}', '\U{2001}', '\U{2002}', '\U{2003}', '\U{2004}', '\U{2005}',
    '\U{2006}', '\U{2007}', '\U{2008}', '\U{2009}', '\U{200A}',
    '\U{2028}', '\U{2029}', '\U{202F}', '\U{205F}', '\U{3000}'
  }

  /** `s.TrimStart(cs)`: drop the longest prefix made of characters in cs. */
  function TrimStartAny(s: string, cs: set<char>): (r: string)
    ensures |r| <= |s| && r == s[|s| - |r|..]
    ensures forall i :: 0 <= i < |s| - |r| ==> s[i] in cs
    ensures r == [] || r[0] !in cs
  {
    if |s| > 0 && s[0] in cs then TrimStartAny(s[1..], cs) else s
  }

  /** `s.TrimEnd(cs)`: drop the longest suffix made of characters in cs. */
  function TrimEndAny(s: string, cs: set<char>): (r: string)
    ensures |r| <= |s| && r == s[..|r|]
    ensures forall i :: |r| <= i < |s| ==> s[i] in cs
    ensures r == [] || r[|r| - 1] !in cs
  {
    if |s| > 0 && s[|s| - 1] in cs then TrimEndAny(s[..|s| - 1], cs) else s
  }

  /** `s.Trim(cs)`: both ends. */
  function TrimAny(s: string, cs: set<char>): string {
    TrimEndAny(TrimStartAny(s, cs), cs)
  }

  function TrimStart(s: string, c: char): string { TrimStartAny(s, {c}) }
  function TrimEnd(s: string, c: char): string { TrimEndAny(s, {c}) }
  function Trim(s: string, c: char): string { TrimAny(s, {c}) }

  /** `s.Trim()` with no arguments: white space at both ends. */
  function TrimWhite(s: string): string { TrimAny(s, WhiteSpace) }

  /** The longest prefix of s made of characters in cs: what an anchored
      regular expression `^[cs]+` matches (empty when it does not match). */
  function LeadingRun(s: string, cs: set<char>): (r: string)
    ensures HasPrefix(s, r)
    ensures forall i :: 0 <= i < |r| ==> r[i] in cs
    ensures |r| == |s| || s[|r|] !in cs
  {
    if |s| > 0 && s[0] in cs then [s[0]] + LeadingRun(s[1..], cs) else []
  }

  /** `s.Replace(pat, "")`: every non-overlapping occurrence of pat, scanned
      left to right, removed. */
  function RemoveAll(s: string, pat: string): (r: string)
    requires |pat| > 0
    ensures |r| <= |s|
    ensures !HasInfix(s, pat) ==> r == s
    decreases |s|
  {
    if |s| < |pat| then s
    else if s[..|pat|] == pat then
      assert OccursAt(s, pat, 0);
      RemoveAll(s[|pat|..], pat)
    else
      InfixOfTail(s, pat);
      [s[0]] + RemoveAll(s[1..], pat)
  }

  lemma InfixOfTail(s: string, p: string)
    requires |s| > 0
    ensures HasInfix(s[1..], p) ==> HasInfix(s, p)
  {
    if HasInfix(s[1..], p) {
      var i :| 0 <= i <= |s[1..]| - |p| && OccursAt(s[1..], p, i);
      assert s[1..][i..i + |p|] == s[i + 1..i + 1 + |p|];
      assert OccursAt(s, p, i + 1);
    }
  }

  /** `s.IndexOf(c)` for a character known to occur. */
  function IndexOf(s: string, c: char): (i: nat)
    requires c in s
    ensures i < |s| && s[i] == c && c !in s[..i]
    ensures forall j :: 0 <= j < i ==> s[j] != c
  {
    if s[0] == c then 0 else 1 + IndexOf(s[1..], c)
  }

  /** Case folding used for the "ignore case" comparisons: ASCII upper-case
      letters map to lower case, every other character to itself. */
  function Fold(c: char): char {
    if 'A' <= c <= 'Z' then (c as int + 32) as char else c
  }

  function FoldAll(s: string): string {
    seq(|s|, i requires 0 <= i < |s| => Fold(s[i]))
  }
}
