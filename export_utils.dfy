/**
 * The statistics shown for a text and the name of the exported file.
 */
module ExportUtils {
  import opened Wrappers
  import opened Chars
  import opened Rewrite

  // ---------------------------------------------------------------------------
  // getTextStatistics

  datatype TextStatistics = TextStatistics(characters: nat, charactersNoSpaces: nat, words: nat, lines: nat, paragraphs: nat)

  const ZERO: TextStatistics := TextStatistics(0, 0, 0, 0, 0)

  predicate IsNewline(c: char) {
    c == '\n'
  }

  /** The separator `'\n'` of `split('\n')`. */
  function Newline(): Matcher {
    (s: string, i: nat) => if i < |s| && s[i] == '\n' then Some(Hit(1, [])) else None
  }

  /** `/\n\n+/`: a run of two or more newlines. */
  function Breaks(): Matcher {
    Run(IsNewline, 2, [])
  }

  /** The pieces of `ps` that are not blank once trimmed (`filter((p) => p.trim())`). */
  function NonBlank(ps: seq<string>): (r: seq<string>)
    ensures |r| <= |ps|
    ensures forall i :: 0 <= i < |r| ==> Trim(r[i]) != []
  {
    if ps == [] then []
    else (if Trim(ps[0]) != [] then [ps[0]] else []) + NonBlank(ps[1..])
  }

  /** The number of maximal runs of ASCII letters (`text.match(/[a-zA-Z]+/g)`). */
  function LetterRuns(s: string): nat {
    if s == [] then 0
    else if IsAsciiLetter(s[0]) then 1 + LetterRuns(s[RunEnd(s, 0, IsAsciiLetter)..])
    else LetterRuns(s[1..])
  }

  /** `getTextStatistics(text)`. */
  function GetTextStatistics(text: string): (r: TextStatistics)
    ensures text == [] ==> r == ZERO
    ensures r.characters == |text|
    ensures r.charactersNoSpaces == |text| - Count(text, IsSpace) <= r.characters
  {
    if text == [] then ZERO
    else
      TextStatistics(
        |text|,
        |Remove(text, IsSpace)|,
        Count(text, IsHanBasic) + LetterRuns(text),
        |Split(text, Newline(), false)|,
        |NonBlank(Split(text, Breaks(), false))|)
  }

  /** The number of newlines in `s[q..]`, split off one position at a time. */
  lemma CountStep(s: string, q: nat)
    requires q < |s|
    ensures Count(s[q..], IsNewline) == (if s[q] == '\n' then 1 else 0) + Count(s[q + 1..], IsNewline)
  {
    assert s[q..][1..] == s[q + 1..];
  }

  /** Splitting on single newlines gives one piece more than there are newlines. */
  lemma {:induction false} NewlinePieces(s: string, p: nat, q: nat)
    requires p <= q <= |s|
    ensures |SplitFrom(s, Newline(), false, p, q)| == 1 + Count(s[q..], IsNewline)
    decreases |s| - q
  {
    if q < |s| {
      CountStep(s, q);
      if s[q] == '\n' {
        NewlinePieces(s, q + 1, q + 1);
      } else {
        NewlinePieces(s, p, q + 1);
      }
    }
  }

  /** A run of `n` newlines holds `n` of the newlines counted from its start. */
  lemma {:induction false} CountRun(s: string, q: nat, n: nat)
    requires q + n <= |s|
    requires forall k :: q <= k < q + n ==> s[k] == '\n'
    ensures Count(s[q..], IsNewline) == n + Count(s[q + n..], IsNewline)
    decreases n
  {
    if n > 0 {
      CountStep(s, q);
      CountRun(s, q + 1, n - 1);
    }
  }

  /** A separator is a run of newlines, all counted. */
  lemma BreakRun(s: string, q: nat)
    requires ValidHit(s, Breaks(), q) && Breaks()(s, q).value.len > 0
    ensures var n := Breaks()(s, q).value.len;
      q + n <= |s| && Count(s[q..], IsNewline) == n + Count(s[q + n..], IsNewline)
  {
    var n := Breaks()(s, q).value.len;
    assert n == RunEnd(s, q, IsNewline) - q;
    CountRun(s, q, n);
  }

  /** Every separator of `\n\n+` uses up at least two newlines, so it cuts no more often. */
  lemma {:induction false} BreakPieces(s: string, p: nat, q: nat)
    requires p <= q <= |s|
    ensures |SplitFrom(s, Breaks(), false, p, q)| <= 1 + Count(s[q..], IsNewline)
    decreases |s| - q
  {
    if q < |s| {
      if ValidHit(s, Breaks(), q) && Breaks()(s, q).value.len > 0 {
        var n := Breaks()(s, q).value.len;
        BreakRun(s, q);
        BreakPieces(s, q + n, q + n);
      } else {
        CountStep(s, q);
        BreakPieces(s, p, q + 1);
      }
    }
  }

  /**
   * For non-empty text, `lines` is the number of newlines plus one, and there are never
   * more paragraphs than lines.
   */
  lemma LinesAndParagraphs(text: string)
    requires text != []
    ensures GetTextStatistics(text).lines == Count(text, IsNewline) + 1
    ensures GetTextStatistics(text).paragraphs <= GetTextStatistics(text).lines
  {
    assert text[0..] == text;
    NewlinePieces(text, 0, 0);
    BreakPieces(text, 0, 0);
  }

  /** A run of letters is at least one letter long, and ideographs are not letters. */
  lemma {:induction false} WordsWithinCharacters(s: string)
    ensures Count(s, IsHanBasic) + LetterRuns(s) <= |s|
    decreases |s|
  {
    if s != [] {
      if IsAsciiLetter(s[0]) {
        var j := RunEnd(s, 0, IsAsciiLetter);
        WordsWithinCharacters(s[j..]);
        HanFreeRun(s, j);
      } else {
        WordsWithinCharacters(s[1..]);
      }
    }
  }

  /** A run of letters holds no ideograph. */
  lemma {:induction false} HanFreeRun(s: string, j: nat)
    requires j <= |s|
    requires forall k :: 0 <= k < j ==> IsAsciiLetter(s[k])
    ensures Count(s, IsHanBasic) == Count(s[j..], IsHanBasic)
    decreases j
  {
    if j > 0 {
      assert s[1..][j - 1..] == s[j..];
      HanFreeRun(s[1..], j - 1);
    }
  }

  /** So the word count never exceeds the character count. */
  lemma WordsBounded(text: string)
    ensures GetTextStatistics(text).words <= GetTextStatistics(text).characters
  {
    WordsWithinCharacters(text);
  }

  // ---------------------------------------------------------------------------
  // generateFilename

  const DEFAULT_PREFIX: string := "manuscript_edited"

  /** The local date and time the name is stamped with. */
  datatype Stamp = Stamp(year: nat, month: nat, day: nat, hours: nat, minutes: nat, seconds: nat)

  /** `String(n)`: the decimal digits of `n`. */
  function Decimal(n: nat): (r: string)
    ensures |r| >= 1 && forall i :: 0 <= i < |r| ==> IsDigit(r[i])
    ensures Value(r) == n
    ensures n < 10 ==> |r| == 1
    ensures n < 100 ==> |r| <= 2
    decreases n
  {
    if n < 10 then
      assert [Digit(n)][..0] == [];
      [Digit(n)]
    else
      var d := Decimal(n / 10);
      ValueAppend(d, Digit(n % 10));
      d + [Digit(n % 10)]
  }

  /** A digit appended on the right multiplies the value by ten and adds the digit. */
  lemma ValueAppend(r: string, c: char)
    ensures Value(r + [c]) == 10 * Value(r) + DigitValue(c)
  {
    assert (r + [c])[..|r|] == r;
  }

  function Digit(d: nat): (c: char)
    requires d < 10
    ensures IsDigit(c) && c as int - '0' as int == d
  {
    ('0' as int + d) as char
  }

  /** The number a string of decimal digits denotes. */
  function Value(r: string): int {
    if r == [] then 0 else 10 * Value(r[..|r| - 1]) + DigitValue(r[|r| - 1])
  }

  function DigitValue(c: char): int {
    c as int - '0' as int
  }

  /** `String(n).padStart(2, '0')`. */
  function Pad2(n: nat): (r: string)
    ensures |r| >= 2 && forall i :: 0 <= i < |r| ==> IsDigit(r[i])
    ensures Value(r) == n
    ensures n < 100 ==> |r| == 2
  {
    var d := Decimal(n);
    if |d| < 2 then
      assert ['0'] + d == ['0', d[0]];
      assert (['0'] + d)[..1] == ['0'];
      ['0'] + d
    else d
  }

  /** `generateFilename(prefix)` at the given moment: `prefix_YYYYMMDD_HHMMSS.txt`. */
  function GenerateFilename(prefix: string, now: Stamp): (r: string)
    ensures now.month < 100 && now.day < 100 && now.hours < 100 && now.minutes < 100 && now.seconds < 100 ==>
      var y := Decimal(now.year);
      var n := |prefix| + 1 + |y|;
      && |r| == n + 4 + 1 + 6 + 4
      && r[..|prefix| + 1] == prefix + "_"
      && r[|prefix| + 1..n] == y
      && r[n..n + 2] == Pad2(now.month) && r[n + 2..n + 4] == Pad2(now.day)
      && r[n + 4] == '_'
      && r[n + 5..n + 7] == Pad2(now.hours) && r[n + 7..n + 9] == Pad2(now.minutes)
      && r[n + 9..n + 11] == Pad2(now.seconds)
      && r[n + 11..] == ".txt"
  {
    prefix + "_" + Decimal(now.year) + Pad2(now.month) + Pad2(now.day)
      + "_" + Pad2(now.hours) + Pad2(now.minutes) + Pad2(now.seconds) + ".txt"
  }

  /** Each two-digit field of the name reads back as the number it was made from. */
  lemma FilenameReadsBack(prefix: string, now: Stamp)
    requires now.month < 100 && now.day < 100 && now.hours < 100 && now.minutes < 100 && now.seconds < 100
    ensures var r := GenerateFilename(prefix, now);
            var n := |prefix| + 1 + |Decimal(now.year)|;
            && Value(r[|prefix| + 1..n]) == now.year
            && Value(r[n..n + 2]) == now.month && Value(r[n + 2..n + 4]) == now.day
            && Value(r[n + 5..n + 7]) == now.hours && Value(r[n + 7..n + 9]) == now.minutes
            && Value(r[n + 9..n + 11]) == now.seconds
  {
    DateReadsBack(prefix, now);
    TimeReadsBack(prefix, now);
  }

  lemma DateReadsBack(prefix: string, now: Stamp)
    requires now.month < 100 && now.day < 100 && now.hours < 100 && now.minutes < 100 && now.seconds < 100
    ensures var r := GenerateFilename(prefix, now);
            var n := |prefix| + 1 + |Decimal(now.year)|;
            && Value(r[|prefix| + 1..n]) == now.year
            && Value(r[n..n + 2]) == now.month && Value(r[n + 2..n + 4]) == now.day
  {
  }

  lemma TimeReadsBack(prefix: string, now: Stamp)
    requires now.month < 100 && now.day < 100 && now.hours < 100 && now.minutes < 100 && now.seconds < 100
    ensures var r := GenerateFilename(prefix, now);
            var n := |prefix| + 1 + |Decimal(now.year)|;
            && Value(r[n + 5..n + 7]) == now.hours && Value(r[n + 7..n + 9]) == now.minutes
            && Value(r[n + 9..n + 11]) == now.seconds
  {
  }
}
