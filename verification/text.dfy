/** String helpers the workspace relies on: ECMAScript `String.prototype.trim`
    (used to validate a title) and the list-pane content preview. */
module Text {

  /** ECMAScript WhiteSpace and LineTerminator code points: the characters
      `trim` removes from both ends of a string. */
  predicate IsWhitespace(c: char) {
    || c == '\U{0009}' || c == '\U{000A}' || c == '\U{000B}' || c == '\U{000C}'
    || c == '\U{000D}' || c == '\U{0020}' || c == '\U{00A0}' || c == '\U{1680}'
    || ('\U{2000}' <= c <= '\U{200A}')
    || c == '\U{2028}' || c == '\U{2029}' || c == '\U{202F}' || c == '\U{205F}'
    || c == '\U{3000}' || c == '\U{FEFF}'
  }

  /** Every character of `s` is whitespace. */
  predicate AllWhitespace(s: string) {
    forall i :: 0 <= i < |s| ==> IsWhitespace(s[i])
  }

  /** Number of whitespace characters at the start of `s`. */
  function LeadingBlanks(s: string): (n: nat)
    ensures n <= |s|
    ensures forall i :: 0 <= i < n ==> IsWhitespace(s[i])
    ensures n == |s| || !IsWhitespace(s[n])
  {
    if |s| > 0 && IsWhitespace(s[0]) then
      var n := 1 + LeadingBlanks(s[1..]);
      assert forall i :: 1 <= i < n ==> s[i] == s[1..][i - 1];
      n
    else
      0
  }

  /** Number of whitespace characters at the end of `s`. */
  function TrailingBlanks(s: string): (n: nat)
    ensures n <= |s|
    ensures forall i :: |s| - n <= i < |s| ==> IsWhitespace(s[i])
    ensures n == |s| || !IsWhitespace(s[|s| - n - 1])
  {
    if |s| > 0 && IsWhitespace(s[|s| - 1]) then
      var n := 1 + TrailingBlanks(s[..|s| - 1]);
      assert forall i :: |s| - n <= i < |s| - 1 ==> s[i] == s[..|s| - 1][i];
      n
    else
      0
  }

  /** `s.trim()`: the slice of `s` left after cutting whitespace from both
      ends; it starts right after the leading whitespace, everything after it
      is whitespace, and it neither starts nor ends with whitespace. */
  function Trim(s: string): (r: string)
    ensures var a := LeadingBlanks(s);
            && a + |r| <= |s| && r == s[a..a + |r|]
            && (forall i :: a + |r| <= i < |s| ==> IsWhitespace(s[i]))
    ensures r == [] || (!IsWhitespace(r[0]) && !IsWhitespace(r[|r| - 1]))
  {
    var a := LeadingBlanks(s);
    if a == |s| then
      []
    else
      var e := |s| - TrailingBlanks(s);
      assert a < e by {
        assert !IsWhitespace(s[a]);
      }
      s[a..e]
  }

  /** The JavaScript test `!title.trim()`: the trimmed title is the empty
      (falsy) string. */
  predicate IsBlank(title: string) {
    Trim(title) == []
  }

  /** A title is blank exactly when it consists of whitespace only. */
  lemma BlankIffAllWhitespace(title: string)
    ensures IsBlank(title) <==> AllWhitespace(title)
  {
    var a := LeadingBlanks(title);
    if a < |title| {
      assert !IsWhitespace(title[a]);
      assert Trim(title)[0] == title[a];
    }
  }

  /** Number of content characters the list pane shows before the ellipsis. */
  const PreviewLength: nat := 35

  /** The ellipsis character appended to a cut preview. */
  const Ellipsis: char := '\U{2026}'

  /** The list-pane preview of a note's content: its first 35 characters,
      followed by an ellipsis exactly when something was cut off. */
  function Preview(content: string): (r: string)
    ensures |r| <= PreviewLength + 1
    ensures |r| == PreviewLength + 1 <==> |content| > PreviewLength
    ensures |content| <= PreviewLength ==> r == content
    ensures |content| > PreviewLength ==>
              |r| == PreviewLength + 1 && r[PreviewLength] == Ellipsis
              && r[..PreviewLength] == content[..PreviewLength]
  {
    content[..if |content| < PreviewLength then |content| else PreviewLength]
      + (if |content| > PreviewLength then [Ellipsis] else [])
  }
}
