/**
 * The few JavaScript string primitives the modelled code calls: `String.prototype.trim`
 * (which `Number(s)` also applies to its argument) and ASCII character classes.
 */
module JsString {

  /** The characters ECMAScript trims: WhiteSpace (tab, VT, FF, space, NBSP, BOM, the Zs category) and LineTerminator. */
  predicate IsWhiteSpace(c: char) {
    || c == '\t' || c == '\U{000B}' || c == '\U{000C}' || c == ' ' || c == '\U{00A0}' || c == '\U{FEFF}'
    || c == '\U{1680}' || ('\U{2000}' <= c <= '\U{200A}') || c == '\U{202F}' || c == '\U{205F}' || c == '\U{3000}'
    || c == '\n' || c == '\r' || c == '\U{2028}' || c == '\U{2029}'
  }

  predicate IsDigit(c: char) {
    '0' <= c <= '9'
  }

  function DigitValue(c: char): (d: nat)
    requires IsDigit(c)
    ensures d < 10
  {
    (c as int) - ('0' as int)
  }

  predicate IsUpper(c: char) {
    'A' <= c <= 'Z'
  }

  /** `toLowerCase` restricted to ASCII: upper-case letters map to lower-case, everything else is kept. */
  function ToLowerAscii(c: char): (l: char)
    ensures !IsUpper(l)
    ensures IsUpper(c) ==> 'a' <= l <= 'z' && (l as int) - ('a' as int) == (c as int) - ('A' as int)
    ensures !IsUpper(c) ==> l == c
  {
    if IsUpper(c) then ((c as int) + 32) as char else c
  }

  /** Drops leading white space: what remains is a suffix of `s` starting at a non-space. */
  function TrimStart(s: string): (r: string)
    ensures |r| <= |s| && s[|s| - |r|..] == r
    ensures forall i :: 0 <= i < |s| - |r| ==> IsWhiteSpace(s[i])
    ensures r == [] || !IsWhiteSpace(r[0])
  {
    if s != [] && IsWhiteSpace(s[0]) then TrimStart(s[1..]) else s
  }

  /** Drops trailing white space: what remains is a prefix of `s` ending at a non-space. */
  function TrimEnd(s: string): (r: string)
    ensures |r| <= |s| && s[..|r|] == r
    ensures forall i :: |r| <= i < |s| ==> IsWhiteSpace(s[i])
    ensures r == [] || !IsWhiteSpace(r[|r| - 1])
  {
    if s != [] && IsWhiteSpace(s[|s| - 1]) then TrimEnd(s[..|s| - 1]) else s
  }

  /** `s.trim()`. */
  function Trim(s: string): (r: string)
    ensures r == [] || (!IsWhiteSpace(r[0]) && !IsWhiteSpace(r[|r| - 1]))
  {
    TrimEnd(TrimStart(s))
  }

  /** A string that starts and ends with non-space characters is its own trim. */
  lemma TrimUnchanged(s: string)
    requires s == [] || (!IsWhiteSpace(s[0]) && !IsWhiteSpace(s[|s| - 1]))
    ensures Trim(s) == s
  {
    assert TrimStart(s) == s;
  }

  /** `s.trim()` splits `s` into white space, the result, and white space. */
  lemma TrimSplits(s: string) returns (pre: string, post: string)
    ensures s == pre + Trim(s) + post
    ensures forall i :: 0 <= i < |pre| ==> IsWhiteSpace(pre[i])
    ensures forall i :: 0 <= i < |post| ==> IsWhiteSpace(post[i])
  {
    var a := TrimStart(s);
    pre := LeadingSpace(s);
    post := TrailingSpace(a);
    var t := TrimEnd(a);
    assert Trim(s) == t;
    assert s == pre + (t + post);
    assert pre + (t + post) == pre + t + post;
  }

  /** The white space that `TrimStart` removes. */
  lemma LeadingSpace(s: string) returns (pre: string)
    ensures s == pre + TrimStart(s)
    ensures forall i :: 0 <= i < |pre| ==> IsWhiteSpace(pre[i])
  {
    var a := TrimStart(s);
    var k := |s| - |a|;
    pre := s[..k];
    assert s == pre + s[k..];
  }

  /** The white space that `TrimEnd` removes. */
  lemma TrailingSpace(s: string) returns (post: string)
    ensures s == TrimEnd(s) + post
    ensures forall i :: 0 <= i < |post| ==> IsWhiteSpace(post[i])
  {
    var b := TrimEnd(s);
    post := s[|b|..];
    assert s == s[..|b|] + post;
  }
}
