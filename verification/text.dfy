/**
 * String operations with the semantics of the JavaScript built-ins the tracker
 * relies on: `String.prototype.trim`, `startsWith` and `slice(0, n)`.
 */
module Text {

  /** The characters `trim` removes: ECMAScript WhiteSpace and LineTerminator code points. */
  predicate IsWhitespace(c: char) {
    || c == '\U{0009}' || c == '\U{000A}' || c == '\U{000B}' || c == '\U{000C}' || c == '\U{000D}'
    || c == ' ' || c == '\U{00A0}' || c == '\U{1680}'
    || ('\U{2000}' <= c <= '\U{200A}')
    || c == '\U{2028}' || c == '\U{2029}' || c == '\U{202F}' || c == '\U{205F}'
    || c == '\U{3000}' || c == '\U{FEFF}'
  }

  predicate AllWhitespace(s: string) {
    forall k :: 0 <= k < |s| ==> IsWhitespace(s[k])
  }

  /** The number of whitespace characters at the front of `s`. */
  function LeadingWhitespace(s: string): (n: nat)
    ensures n <= |s| && AllWhitespace(s[..n])
    ensures n == |s| || !IsWhitespace(s[n])
  {
    if |s| > 0 && IsWhitespace(s[0]) then
      var n := 1 + LeadingWhitespace(s[1..]);
      assert forall k :: 1 <= k < n ==> s[..n][k] == s[1..][..n - 1][k - 1];
      n
    else 0
  }

  /** The number of whitespace characters at the end of `s`. */
  function TrailingWhitespace(s: string): (n: nat)
    ensures n <= |s| && AllWhitespace(s[|s| - n..])
    ensures n == |s| || !IsWhitespace(s[|s| - n - 1])
  {
    if |s| > 0 && IsWhitespace(s[|s| - 1]) then
      var n := 1 + TrailingWhitespace(s[..|s| - 1]);
      assert s[|s| - n..] == s[..|s| - 1][|s| - n..] + [s[|s| - 1]];
      n
    else 0
  }

  /**
   * `s.trim()`: `s` without its leading and trailing whitespace; what is left
   * neither starts nor ends with whitespace.
   */
  function Trim(s: string): (r: string)
    ensures var i := LeadingWhitespace(s); i + |r| <= |s| && r == s[i..i + |r|]
    ensures r == [] || (!IsWhitespace(r[0]) && !IsWhitespace(r[|r| - 1]))
    ensures AllWhitespace(s[LeadingWhitespace(s) + |r|..])
  {
    var front := s[LeadingWhitespace(s)..];
    var r := front[..|front| - TrailingWhitespace(front)];
    assert s[LeadingWhitespace(s) + |r|..] == front[|front| - TrailingWhitespace(front)..];
    r
  }

  /** Trimming leaves nothing exactly when the text is all whitespace. */
  lemma TrimEmptyIffWhitespace(s: string)
    ensures Trim(s) == [] <==> AllWhitespace(s)
  {
    var i := LeadingWhitespace(s);
    if i == |s| {
      assert s == s[..i];
    }
  }

  /** `s.startsWith(p)`. */
  predicate StartsWith(s: string, p: string) {
    |p| <= |s| && s[..|p|] == p
  }

  /** `s.slice(0, n)` for a non-negative `n`: JavaScript clamps `n` to the length. */
  function SlicePrefix(s: string, n: nat): (r: string)
    ensures |r| == if n <= |s| then n else |s|
    ensures StartsWith(s, r)
  {
    if n <= |s| then s[..n] else s
  }

  /**
   * The two month filters of the tracker agree: comparing the first |m|
   * characters with `m` is the same test as `startsWith(m)`.
   */
  lemma SliceEqualsIffStartsWith(s: string, m: string)
    ensures SlicePrefix(s, |m|) == m <==> StartsWith(s, m)
  {
    if |m| > |s| {
      assert |SlicePrefix(s, |m|)| != |m|;
    }
  }
}
