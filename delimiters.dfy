/**
 * The delimiter policy of the argument completer: which characters of a
 * buffer separate tokens, and how trailing separators are trimmed from a
 * candidate (ArgumentCompleter.isDelimiter, isEscaped, isDelimiterChar and
 * the trimming loop of complete).
 */
module Delimiters {

  /** Java's Character.isWhitespace on one character: the Unicode space,
      line and paragraph separators other than the no-break spaces, and the
      ASCII controls TAB, LF, VT, FF, CR and FS, GS, RS, US. */
  predicate IsWhitespace(c: char) {
    ('\t' <= c <= '\r') || ('\U{1C}' <= c <= ' ') ||
    c == '\U{1680}' || ('\U{2000}' <= c <= '\U{2006}') || ('\U{2008}' <= c <= '\U{200A}') ||
    c == '\U{2028}' || c == '\U{2029}' || c == '\U{205F}' || c == '\U{3000}'
  }

  /** isEscaped: the character AT pos is a backslash that is not itself
      escaped; position 0 is never escaped. */
  predicate IsEscaped(buffer: string, pos: int)
    requires pos < |buffer|
    decreases pos
  {
    pos > 0 && buffer[pos] == '\\' && !IsEscaped(buffer, pos - 1)
  }

  /** isDelimiterChar: the character at pos is whitespace. */
  predicate IsDelimiterChar(buffer: string, pos: int)
    requires 0 <= pos < |buffer|
  {
    IsWhitespace(buffer[pos])
  }

  /** isDelimiter: an unescaped whitespace character. */
  predicate IsDelimiter(buffer: string, pos: int)
    requires 0 <= pos < |buffer|
  {
    !IsEscaped(buffer, pos) && IsDelimiterChar(buffer, pos)
  }

  /** The number of backslashes in the unbroken run that ends at pos,
      counting positions 1..pos only. */
  function BackslashRun(buffer: string, pos: int): nat
    requires pos < |buffer|
    decreases pos
  {
    if pos > 0 && buffer[pos] == '\\' then 1 + BackslashRun(buffer, pos - 1) else 0
  }

  /** Position 0 is never escaped, and only a backslash can be escaped. */
  lemma EscapedOnlyAtBackslash(buffer: string, pos: int)
    requires 0 <= pos < |buffer|
    ensures pos == 0 ==> !IsEscaped(buffer, pos)
    ensures IsEscaped(buffer, pos) ==> buffer[pos] == '\\'
  {
  }

  /** Escape parity: a position is escaped exactly when it ends an odd run
      of backslashes (position 0 excluded). */
  lemma {:induction false} EscapeParity(buffer: string, pos: int)
    requires pos < |buffer|
    ensures IsEscaped(buffer, pos) <==> BackslashRun(buffer, pos) % 2 == 1
    decreases pos
  {
    if pos > 0 && buffer[pos] == '\\' {
      EscapeParity(buffer, pos - 1);
    }
  }

  /** Because the escape test looks at the character itself, a delimiter
      is exactly a whitespace character: escaping never hides one. */
  lemma DelimiterIsWhitespace(buffer: string, pos: int)
    requires 0 <= pos < |buffer|
    ensures IsDelimiter(buffer, pos) <==> IsWhitespace(buffer[pos])
  {
    EscapedOnlyAtBackslash(buffer, pos);
  }

  /** The inner loop of the trimming step: drop the last character while
      it is a delimiter of the candidate itself. */
  function TrimDelimiters(val: string): (r: string)
    ensures |r| <= |val| && r == val[..|r|]
    ensures |r| == 0 || !IsWhitespace(r[|r| - 1])
    ensures forall i :: |r| <= i < |val| ==> IsWhitespace(val[i])
    decreases |val|
  {
    if |val| > 0 && IsDelimiter(val, |val| - 1) then
      DelimiterIsWhitespace(val, |val| - 1);
      TrimDelimiters(val[..|val| - 1])
    else
      assert |val| > 0 ==> !IsWhitespace(val[|val| - 1]) by {
        if |val| > 0 { DelimiterIsWhitespace(val, |val| - 1); }
      }
      val
  }

  /** The trimmed candidate is the one prefix of the candidate that leaves
      only whitespace behind and does not itself end in whitespace. */
  lemma TrimDelimitersUnique(val: string, r: string)
    requires |r| <= |val| && r == val[..|r|]
    requires |r| == 0 || !IsWhitespace(r[|r| - 1])
    requires forall i :: |r| <= i < |val| ==> IsWhitespace(val[i])
    ensures r == TrimDelimiters(val)
  {
    var t := TrimDelimiters(val);
    assert |t| == 0 || val[|t| - 1] == t[|t| - 1];
    assert |r| == 0 || val[|r| - 1] == r[|r| - 1];
  }
}
