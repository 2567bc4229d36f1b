/** JavaScript value semantics the handlers rely on: nullable values,
    `String.prototype.trim`, `String.prototype.toLowerCase` (ASCII part) and
    the truthiness of strings. */
module JsValues {

  /** A value that may be `null` or `undefined` (None) or present (Some). */
  datatype Option<+T> = None | Some(value: T) {

    /** `x || fallback` for a value whose present form is always truthy
        (arrays and objects are truthy in JavaScript, even when empty). */
    function GetOr(fallback: T): (r: T)
      ensures Some? ==> r == value
      ensures None? ==> r == fallback
    {
      match this
      case Some(v) => v
      case None => fallback
    }
  }

  /** The WhiteSpace and LineTerminator code points of ECMA-262
      (sections 12.2 and 12.3), which `trim` removes from both ends. */
  predicate IsWhitespace(c: char) {
    || c in {'\t', '\n', '\U{000B}', '\U{000C}', '\r', ' ', '\U{00A0}', '\U{1680}'}
    || c in {'\U{2028}', '\U{2029}', '\U{202F}', '\U{205F}', '\U{3000}', '\U{FEFF}'}
    || ('\U{2000}' <= c <= '\U{200A}')
  }

  /** A string is blank when `s.trim()` is the empty (falsy) string. */
  predicate IsBlank(s: string) {
    forall i :: 0 <= i < |s| ==> IsWhitespace(s[i])
  }

  /** The number of leading whitespace characters of `s`: all characters
      before it are whitespace and the one at it, if any, is not. */
  function LeadingBlanks(s: string): (n: nat)
    ensures n <= |s|
    ensures forall i :: 0 <= i < n ==> IsWhitespace(s[i])
    ensures n < |s| ==> !IsWhitespace(s[n])
  {
    if |s| > 0 && IsWhitespace(s[0]) then
      var k := LeadingBlanks(s[1..]);
      assert forall i :: 0 < i <= k ==> s[i] == s[1..][i - 1];
      1 + k
    else
      0
  }

  /** Where the trailing whitespace of `s` starts: all characters from it on
      are whitespace and the one before it, if any, is not. */
  function TrailingBlanksStart(s: string): (n: nat)
    ensures n <= |s|
    ensures forall i :: n <= i < |s| ==> IsWhitespace(s[i])
    ensures n > 0 ==> !IsWhitespace(s[n - 1])
  {
    if |s| > 0 && IsWhitespace(s[|s| - 1]) then
      TrailingBlanksStart(s[..|s| - 1])
    else
      |s|
  }

  /** `s.trim()`: whitespace dropped from both ends. The result is no
      longer than `s` and neither starts nor ends with whitespace;
      `TrimIsInfix` and `TrimEmptyIffBlank` say what was dropped. */
  function Trim(s: string): (r: string)
    ensures |r| <= |s|
    ensures |r| > 0 ==> !IsWhitespace(r[0]) && !IsWhitespace(r[|r| - 1])
  {
    var lo := LeadingBlanks(s);
    var hi := TrailingBlanksStart(s[lo..]);
    assert hi > 0 ==> s[lo..][hi - 1] == s[lo + hi - 1];
    s[lo..lo + hi]
  }

  /** `r` is the infix of `s` starting at `lo`, with only whitespace before
      and after it. */
  predicate BlankAround(s: string, r: string, lo: int) {
    && 0 <= lo <= |s| - |r|
    && r == s[lo..lo + |r|]
    && (forall i :: 0 <= i < lo ==> IsWhitespace(s[i]))
    && (forall i :: lo + |r| <= i < |s| ==> IsWhitespace(s[i]))
  }

  /** The trimmed string is an infix of `s` with only whitespace before and
      after it. */
  lemma TrimIsInfix(s: string)
    ensures exists lo :: BlankAround(s, Trim(s), lo)
  {
    var lo := LeadingBlanks(s);
    var t := s[lo..];
    var hi := TrailingBlanksStart(t);
    assert Trim(s) == s[lo..lo + hi];
    forall i | lo + hi <= i < |s| ensures IsWhitespace(s[i]) {
      assert s[i] == t[i - lo];
    }
    assert BlankAround(s, Trim(s), lo);
  }

  /** `s.trim()` is the empty (falsy) string exactly when `s` is blank. */
  lemma TrimEmptyIffBlank(s: string)
    ensures Trim(s) == [] <==> IsBlank(s)
  {
    var lo := LeadingBlanks(s);
    var t := s[lo..];
    if lo < |s| {
      assert t[0] == s[lo];
    }
  }

  /** Trimming is idempotent. */
  lemma TrimIdempotent(s: string)
    ensures Trim(Trim(s)) == Trim(s)
  {
    var r := Trim(s);
    assert LeadingBlanks(r) == 0;
    assert r[0..] == r;
    assert |r| > 0 ==> TrailingBlanksStart(r) == |r|;
  }

  /** The truthiness of a string in JavaScript: only "" is falsy. */
  predicate Truthy(s: string) {
    s != []
  }

  /** `toLowerCase` on one character, for the ASCII letters A-Z. */
  function LowerChar(c: char): (d: char)
    ensures 'A' <= c <= 'Z' ==> 'a' <= d <= 'z' && d as int - c as int == 32
    ensures !('A' <= c <= 'Z') ==> d == c
  {
    if 'A' <= c <= 'Z' then (c as int + 32) as char else c
  }

  /** `s.toLowerCase()` restricted to ASCII upper-case letters. */
  function ToLower(s: string): (r: string)
    ensures |r| == |s|
    ensures forall i :: 0 <= i < |s| ==> r[i] == LowerChar(s[i])
  {
    seq(|s|, i requires 0 <= i < |s| => LowerChar(s[i]))
  }

  /** Lower-casing is idempotent, so names that differ only in letter case
      share one key. */
  lemma ToLowerIdempotent(s: string)
    ensures ToLower(ToLower(s)) == ToLower(s)
  {
  }
}
