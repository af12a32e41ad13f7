/** Values and string helpers shared by the pages and the edge function. */
module Common {

  datatype Option<T> = None | Some(value: T)

  /** ECMAScript WhiteSpace and LineTerminator code points: what String.prototype.trim removes. */
  predicate IsWhitespace(c: char) {
    || c == '\U{9}' || c == '\U{B}' || c == '\U{C}' || c == ' ' || c == '\U{A0}' || c == '\U{FEFF}'
    || c == '\U{1680}' || ('\U{2000}' <= c <= '\U{200A}') || c == '\U{202F}' || c == '\U{205F}' || c == '\U{3000}'
    || c == '\n' || c == '\r' || c == '\U{2028}' || c == '\U{2029}'
  }

  predicate AllWhitespace(s: string) {
    forall i :: 0 <= i < |s| ==> IsWhitespace(s[i])
  }

  /** How many whitespace characters the string starts with. */
  function LeadingWhitespace(s: string): (n: nat)
    ensures n <= |s|
    ensures forall i :: 0 <= i < n ==> IsWhitespace(s[i])
    ensures n < |s| ==> !IsWhitespace(s[n])
  {
    if s != [] && IsWhitespace(s[0]) then 1 + LeadingWhitespace(s[1..]) else 0
  }

  /** The length of the string once its trailing whitespace is dropped. */
  function WithoutTrailingWhitespace(s: string): (n: nat)
    ensures n <= |s|
    ensures forall i :: n <= i < |s| ==> IsWhitespace(s[i])
    ensures 0 < n ==> !IsWhitespace(s[n - 1])
  {
    if s != [] && IsWhitespace(s[|s| - 1]) then WithoutTrailingWhitespace(s[..|s| - 1]) else |s|
  }

  /**
   * String.prototype.trim: the input without leading and trailing whitespace.
   * The result is the stretch of the input that follows its leading
   * whitespace, everything outside it is whitespace and, unless empty, it
   * starts and ends with a character that is not whitespace.
   */
  function Trim(s: string): (r: string)
    ensures LeadingWhitespace(s) + |r| <= |s| && r == s[LeadingWhitespace(s)..LeadingWhitespace(s) + |r|]
    ensures forall i :: 0 <= i < |s| && !(LeadingWhitespace(s) <= i < LeadingWhitespace(s) + |r|) ==> IsWhitespace(s[i])
    ensures r != "" ==> !IsWhitespace(r[0]) && !IsWhitespace(r[|r| - 1])
  {
    var a := LeadingWhitespace(s);
    var t := s[a..];
    var n := WithoutTrailingWhitespace(t);
    assert t != [] ==> t[0] == s[a];
    assert t[..n] == s[a..a + n];
    assert forall i :: a + n <= i < |s| ==> s[i] == t[i - a];
    t[..n]
  }

  /** `!s.trim()`: the trimmed string is empty, hence falsy; that is, the string is all whitespace. */
  predicate IsBlank(s: string)
    ensures IsBlank(s) <==> AllWhitespace(s)
  {
    BlankIffAllWhitespace(s);
    Trim(s) == ""
  }

  /** A string trims to nothing exactly when every character of it is whitespace. */
  lemma BlankIffAllWhitespace(s: string)
    ensures Trim(s) == "" <==> AllWhitespace(s)
  {
    var a := LeadingWhitespace(s);
    var t := s[a..];
    var n := WithoutTrailingWhitespace(t);
    if n != 0 {
      assert !IsWhitespace(s[a + n - 1]) by { assert t[n - 1] == s[a + n - 1]; }
    }
  }

  /** toLowerCase on the ASCII letters; every other character is kept. */
  function AsciiLower(s: string): (r: string)
    ensures |r| == |s|
    ensures forall i :: 0 <= i < |s| ==> !('A' <= r[i] <= 'Z')
  {
    if s == [] then []
    else [if 'A' <= s[0] <= 'Z' then (s[0] as int + 32) as char else s[0]] + AsciiLower(s[1..])
  }

  /** toUpperCase on the ASCII letters; every other character is kept. */
  function AsciiUpper(s: string): (r: string)
    ensures |r| == |s|
    ensures forall i :: 0 <= i < |s| ==> !('a' <= r[i] <= 'z')
  {
    if s == [] then []
    else [if 'a' <= s[0] <= 'z' then (s[0] as int - 32) as char else s[0]] + AsciiUpper(s[1..])
  }

  /** Lower-casing works position by position: each character is mapped on its own. */
  lemma {:induction false} AsciiLowerAt(s: string, i: int)
    requires 0 <= i < |s|
    ensures AsciiLower(s)[i] == if 'A' <= s[i] <= 'Z' then (s[i] as int + 32) as char else s[i]
  {
    if i > 0 {
      AsciiLowerAt(s[1..], i - 1);
    }
  }

  /** Upper-casing forgets the case it started from: lower then upper is just upper. */
  lemma {:induction false} UpperOfLower(s: string)
    ensures AsciiUpper(AsciiLower(s)) == AsciiUpper(s)
  {
    if s != [] {
      UpperOfLower(s[1..]);
    }
  }

  /** Upper-casing leaves a string without lower-case ASCII letters unchanged. */
  lemma {:induction false} UpperKeepsUpper(s: string)
    requires forall i :: 0 <= i < |s| ==> !('a' <= s[i] <= 'z')
    ensures AsciiUpper(s) == s
  {
    if s != [] {
      UpperKeepsUpper(s[1..]);
      assert s == [s[0]] + s[1..];
    }
  }

  /** `s || null` for a string: the empty string is falsy. */
  function OrNull(s: string): Option<string> {
    if s == "" then None else Some(s)
  }
}
