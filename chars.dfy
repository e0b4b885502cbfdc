/**
 * Character classes used by the rewrite passes, and JavaScript's `trim`.
 *
 * The source uses three different ideograph ranges; each has its own predicate
 * here so that a pass can never silently borrow another pass's range.
 */
module Chars {

  /** U+4E00..U+9FA5, the range of fixPunctuation, addSpacesAroundEnglish and getTextStatistics. */
  predicate IsHanBasic(c: char) {
    '\U{4E00}' <= c <= '\U{9FA5}'
  }

  /** U+4E00..U+9FFF, the range of removeUnnecessarySpaces. */
  predicate IsHanFull(c: char) {
    '\U{4E00}' <= c <= '\U{9FFF}'
  }

  /** U+4E00..U+9FFF together with U+3400..U+4DBF, the range of the repeated-word rule of removeRedundancy. */
  predicate IsHanExt(c: char) {
    IsHanFull(c) || '\U{3400}' <= c <= '\U{4DBF}'
  }

  /** JavaScript's `\s`: the WhiteSpace and LineTerminator code points of ECMAScript. */
  predicate IsSpace(c: char) {
    c == '\t' || c == '\n' || c == '\U{000B}' || c == '\U{000C}' || c == '\r' || c == ' '
    || c == '\U{00A0}' || c == '\U{1680}' || ('\U{2000}' <= c <= '\U{200A}')
    || c == '\U{2028}' || c == '\U{2029}' || c == '\U{202F}' || c == '\U{205F}'
    || c == '\U{3000}' || c == '\U{FEFF}'
  }

  /** The characters after which `^` matches in a multiline JavaScript regular expression. */
  predicate IsLineTerminator(c: char) {
    c == '\n' || c == '\r' || c == '\U{2028}' || c == '\U{2029}'
  }

  /** `[ \t]`: a space or a tab. */
  predicate IsBlank(c: char) {
    c == ' ' || c == '\t'
  }

  /** JavaScript's `\d`. */
  predicate IsDigit(c: char) {
    '0' <= c <= '9'
  }

  predicate IsAsciiLetter(c: char) {
    'a' <= c <= 'z' || 'A' <= c <= 'Z'
  }

  /** `[a-zA-Z0-9]`. */
  predicate IsAlnum(c: char) {
    IsAsciiLetter(c) || IsDigit(c)
  }

  /** JavaScript's `\w`, the characters that decide a `\b` word boundary. */
  predicate IsWordChar(c: char) {
    IsAlnum(c) || c == '_'
  }

  lemma LineTerminatorIsSpace(c: char)
    ensures IsLineTerminator(c) ==> IsSpace(c)
  {
  }

  /** No character of the basic range lies outside the wider ones. */
  lemma HanRangesNest(c: char)
    ensures IsHanBasic(c) ==> IsHanFull(c)
    ensures IsHanFull(c) ==> IsHanExt(c)
    ensures IsHanExt(c) ==> !IsSpace(c) && !IsAlnum(c)
  {
  }

  /** True when every character of `s` is JavaScript whitespace. */
  predicate AllSpace(s: string) {
    forall k :: 0 <= k < |s| ==> IsSpace(s[k])
  }

  /** The number of whitespace characters at the start of `s`. */
  function LeadingSpaces(s: string): (n: nat)
    ensures n <= |s|
    ensures AllSpace(s[..n])
    ensures n < |s| ==> !IsSpace(s[n])
  {
    if s != [] && IsSpace(s[0]) then
      var n := 1 + LeadingSpaces(s[1..]);
      assert s[..n] == [s[0]] + s[1..][..n - 1];
      n
    else 0
  }

  /** The number of whitespace characters at the end of `s`. */
  function TrailingSpaces(s: string): (n: nat)
    ensures n <= |s|
    ensures AllSpace(s[|s| - n..])
    ensures n < |s| ==> !IsSpace(s[|s| - n - 1])
  {
    if s != [] && IsSpace(s[|s| - 1]) then
      var n := 1 + TrailingSpaces(s[..|s| - 1]);
      assert s[|s| - n..] == s[..|s| - 1][|s| - n..] + [s[|s| - 1]];
      n
    else 0
  }

  /** JavaScript's `String.prototype.trim`: strips leading and trailing `\s` characters. */
  function Trim(s: string): (r: string)
    ensures LeadingSpaces(s) + |r| <= |s|
    ensures r == s[LeadingSpaces(s)..LeadingSpaces(s) + |r|]
    ensures AllSpace(s[..LeadingSpaces(s)]) && AllSpace(s[LeadingSpaces(s) + |r|..])
    ensures r != [] ==> !IsSpace(r[0]) && !IsSpace(r[|r| - 1])
    ensures r == [] <==> AllSpace(s)
  {
    var a := LeadingSpaces(s);
    var rest := s[a..];
    var b := TrailingSpaces(rest);
    assert rest[|rest| - b..] == s[a + |rest| - b..];
    if a == |s| then
      assert s[..a] == s;
      []
    else
      assert !IsSpace(s[a]);
      assert rest[0] == s[a];
      var r := rest[..|rest| - b];
      assert !AllSpace(s) by { assert !IsSpace(s[a]); }
      r
  }

  /** A string that `Trim` leaves alone: empty, or neither end is whitespace. */
  predicate IsTrimmed(s: string) {
    s == [] || (!IsSpace(s[0]) && !IsSpace(s[|s| - 1]))
  }

  /** `Trim` is idempotent and its result is trimmed. */
  lemma TrimIdempotent(s: string)
    ensures IsTrimmed(Trim(s))
    ensures Trim(Trim(s)) == Trim(s)
  {
    var t := Trim(s);
    assert LeadingSpaces(t) == 0;
    assert TrailingSpaces(t[0..]) == 0;
  }

  /** A trimmed string is its own `Trim`. */
  lemma TrimOfTrimmed(s: string)
    requires IsTrimmed(s)
    ensures Trim(s) == s
  {
    assert LeadingSpaces(s) == 0;
    assert s[0..] == s;
    assert TrailingSpaces(s) == 0;
  }

  /** `[，。！？、；：」』）]`: full-width punctuation that closes on the text before it. */
  predicate IsClosingMark(c: char) {
    c == '，' || c == '。' || c == '！' || c == '？' || c == '、' || c == '；' || c == '：'
    || c == '」' || c == '』' || c == '）'
  }

  /** `[「『（]`: full-width punctuation that opens on the text after it. */
  predicate IsOpeningMark(c: char) {
    c == '「' || c == '『' || c == '（'
  }

  /** Every character is an ideograph of U+4E00–U+9FA5. */
  predicate AllHan(w: string) {
    forall k :: 0 <= k < |w| ==> IsHanBasic(w[k])
  }

  /** Every character is an ASCII letter or digit. */
  predicate AllAlnum(w: string) {
    forall k :: 0 <= k < |w| ==> IsAlnum(w[k])
  }

  /** `[，。！？；：]`: the full-width sentence marks. */
  predicate IsSentenceMark(c: char) {
    c == '，' || c == '。' || c == '！' || c == '？' || c == '；' || c == '：'
  }

  /** The character class holding just `c`. */
  function Is(c: char): char -> bool {
    d => d == c
  }
}
