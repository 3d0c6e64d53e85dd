/** The parts of JavaScript's String behaviour that the chat client relies on:
    the whitespace set of `trim`/`trimStart`, and `startsWith`. */
module JsText {

  /** ECMAScript WhiteSpace and LineTerminator code points: exactly what
      `String.prototype.trim` and `trimStart` remove. */
  predicate IsWhitespace(c: char) {
    // WhiteSpace: TAB, VT, FF, ZWNBSP and the Zs category
    c == '\t' || c == '\U{000B}' || c == '\U{000C}' || c == '\U{FEFF}' ||
    c == ' ' || c == '\U{00A0}' || c == '\U{1680}' ||
    ('\U{2000}' <= c <= '\U{200A}') ||
    c == '\U{202F}' || c == '\U{205F}' || c == '\U{3000}' ||
    // LineTerminator: LF, CR, LS, PS
    c == '\n' || c == '\r' || c == '\U{2028}' || c == '\U{2029}'
  }

  /** `s.trimStart()`: the longest suffix of `s` that does not start with whitespace. */
  function TrimStart(s: string): (r: string)
    ensures |r| <= |s| && r == s[|s| - |r|..]
    ensures forall i {:trigger IsWhitespace(s[i])} :: 0 <= i < |s| - |r| ==> IsWhitespace(s[i])
    ensures r == [] || !IsWhitespace(r[0])
  {
    if s != [] && IsWhitespace(s[0]) then TrimStart(s[1..]) else s
  }

  /** `s.trimEnd()`: the longest prefix of `s` that does not end with whitespace. */
  function TrimEnd(s: string): (r: string)
    ensures |r| <= |s| && r == s[..|r|]
    ensures forall i {:trigger IsWhitespace(s[i])} :: |r| <= i < |s| ==> IsWhitespace(s[i])
    ensures r == [] || !IsWhitespace(r[|r| - 1])
  {
    if s != [] && IsWhitespace(s[|s| - 1]) then TrimEnd(s[..|s| - 1]) else s
  }

  /** `s.trim()`: whitespace removed at both ends. The result is empty exactly
      when every character of `s` is whitespace. */
  function Trim(s: string): (r: string)
    ensures exists i, j :: IsTrimOf(s, i, j) && r == s[i..j]
    ensures r == [] <==> forall i {:trigger IsWhitespace(s[i])} :: 0 <= i < |s| ==> IsWhitespace(s[i])
    ensures r != [] ==> !IsWhitespace(r[0]) && !IsWhitespace(r[|r| - 1])
  {
    var front := TrimStart(s);
    var r := TrimEnd(front);
    TrimIsInfix(s, front, r);
    assert r == [] ==> front == [];
    r
  }

  /** `s[i..j]` is `s` with only whitespace cut off at its two ends. */
  predicate IsTrimOf(s: string, i: int, j: int) {
    0 <= i <= j <= |s| &&
    (forall k {:trigger IsWhitespace(s[k])} :: 0 <= k < i ==> IsWhitespace(s[k])) &&
    (forall k {:trigger IsWhitespace(s[k])} :: j <= k < |s| ==> IsWhitespace(s[k]))
  }

  /** Cutting whitespace off the front and then off the back leaves an
      infix with only whitespace cut off at its two ends. */
  lemma TrimIsInfix(s: string, front: string, r: string)
    requires |front| <= |s| && front == s[|s| - |front|..]
    requires forall k {:trigger IsWhitespace(s[k])} :: 0 <= k < |s| - |front| ==> IsWhitespace(s[k])
    requires |r| <= |front| && r == front[..|r|]
    requires forall k {:trigger IsWhitespace(front[k])} :: |r| <= k < |front| ==> IsWhitespace(front[k])
    ensures IsTrimOf(s, |s| - |front|, |s| - |front| + |r|)
    ensures r == s[|s| - |front|..|s| - |front| + |r|]
  {
    var i := |s| - |front|;
    forall k | i + |r| <= k < |s| ensures IsWhitespace(s[k]) {
      assert s[k] == front[k - i];
      assert IsWhitespace(front[k - i]);
    }
  }

  /** `s.startsWith(prefix)`. */
  predicate StartsWith(s: string, prefix: string) {
    |prefix| <= |s| && s[..|prefix|] == prefix
  }
}
