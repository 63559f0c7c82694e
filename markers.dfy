/**
 * The outline-marker test of the browser parser: the pattern `^\((\w+)\)`
 * that captures a bracketed word at the very start of an element's content,
 * and the four patterns tried in turn on the captured word.  Only these
 * patterns are modelled, each as an explicit predicate on characters.
 */
module Markers {
  import opened Dom

  /** `\w`: an ASCII letter, digit or underscore. */
  predicate IsWordChar(c: char) {
    ('a' <= c <= 'z') || ('A' <= c <= 'Z') || ('0' <= c <= '9') || c == '_'
  }

  /** `\d`: an ASCII digit. */
  predicate IsDigit(c: char) {
    '0' <= c <= '9'
  }

  predicate AllWordChars(s: string) {
    forall i :: 0 <= i < |s| ==> IsWordChar(s[i])
  }

  /** The length of the longest prefix of `s` made of word characters. */
  function WordRun(s: string): (n: nat)
    ensures n <= |s|
    ensures AllWordChars(s[..n])
    ensures n < |s| ==> !IsWordChar(s[n])
  {
    if |s| > 0 && IsWordChar(s[0]) then 1 + WordRun(s[1..]) else 0
  }

  /**
   * Group 1 of `content.match(/^\((\w+)\)/)`, or None when there is no
   * match.  The greedy `\w+` can only stop at the end of the run of word
   * characters, since the `)` after it is not one.
   */
  function BracketCapture(content: string): Option<string> {
    if |content| == 0 || content[0] != '(' then None
    else
      var n := WordRun(content[1..]);
      if 0 < n && n + 1 < |content| && content[n + 1] == ')' then Some(content[1..n + 1]) else None
  }

  /** `content` begins with `(`, then the word `w`, then `)`. */
  predicate StartsWithBracketed(content: string, w: string) {
    |w| > 0 && AllWordChars(w) && ['('] + w + [')'] <= content
  }

  /** The capture is exactly the word between a leading `(` and the `)` after it. */
  lemma {:induction false} BracketCaptureMatches(content: string, w: string)
    ensures BracketCapture(content) == Some(w) <==> StartsWithBracketed(content, w)
  {
    if StartsWithBracketed(content, w) {
      var n := WordRun(content[1..]);
      var p := ['('] + w + [')'];
      assert content[..|p|] == p;
      assert content[0] == p[0] == '(';
      assert content[|w| + 1] == p[|w| + 1] == ')';
      assert content[1..|w| + 1] == p[1..|w| + 1] == w;
      assert content[1..][..|w|] == w;
      assert content[1..][|w|] == ')';
      assert n == |w|;
    }
    if BracketCapture(content) == Some(w) {
      var n := WordRun(content[1..]);
      assert content[1..][..n] == content[1..n + 1] == w;
      assert AllWordChars(w);
      assert content[..n + 2] == ['('] + w + [')'];
      assert StartsWithBracketed(content, w);
    }
  }

  /** `^\d+$` */
  predicate AllDigits(s: string) {
    |s| > 0 && forall i :: 0 <= i < |s| ==> IsDigit(s[i])
  }

  /** `^[a-z]$` */
  predicate IsSingleLower(s: string) {
    |s| == 1 && 'a' <= s[0] <= 'z'
  }

  /** `^[A-Z]$` */
  predicate IsSingleUpper(s: string) {
    |s| == 1 && 'A' <= s[0] <= 'Z'
  }

  /** `^\d+\.$` */
  predicate IsNumericReturn(s: string) {
    |s| >= 2 && AllDigits(s[..|s| - 1]) && s[|s| - 1] == '.'
  }

  /** What a bracketed word announces. */
  datatype Marker = NumericDescend | LowerAlphaDescend | UpperAlphaDescend | NumericReturn

  /** The four patterns, tried in the order the parser tries them. */
  function Classify(bullet: string): Option<Marker> {
    if AllDigits(bullet) then Some(NumericDescend)
    else if IsSingleLower(bullet) then Some(LowerAlphaDescend)
    else if IsSingleUpper(bullet) then Some(UpperAlphaDescend)
    else if IsNumericReturn(bullet) then Some(NumericReturn)
    else None
  }

  /** A word that one of the three "one level deeper" patterns accepts. */
  predicate IsDescendWord(bullet: string) {
    Classify(bullet).Some? && Classify(bullet) != Some(NumericReturn)
  }

  /**
   * A word is classified exactly when it is digits, or one lower- or one
   * upper-case letter, and then always as a descend marker.
   */
  lemma ClassifiedWords(bullet: string)
    requires AllWordChars(bullet)
    ensures Classify(bullet).Some? <==> AllDigits(bullet) || IsSingleLower(bullet) || IsSingleUpper(bullet)
    ensures Classify(bullet) != Some(NumericReturn)
    ensures IsDescendWord(bullet) <==> Classify(bullet).Some?
  {
  }

  /** The `^\d+\.$` test never succeeds on a captured word: `\w` excludes `.`. */
  lemma CaptureNeverReturns(content: string)
    ensures BracketCapture(content).Some? ==> Classify(BracketCapture(content).value) != Some(NumericReturn)
  {
    if BracketCapture(content).Some? {
      BracketCaptureMatches(content, BracketCapture(content).value);
      ClassifiedWords(BracketCapture(content).value);
    }
  }
}
