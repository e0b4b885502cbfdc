/**
 * Removal of timestamps such as `[00:01:23]`, `(12:34)` or a bare `1:23`, followed by
 * whitespace clean-up and trimming.
 */
module RemoveTimestamps {
  import opened Wrappers
  import opened Chars
  import opened Rewrite

  predicate TwoDigits(s: string, i: nat) {
    i + 1 < |s| && IsDigit(s[i]) && IsDigit(s[i + 1])
  }

  /**
   * The end of `\d{1,2}:\d{2}` (followed by `:\d{2}` when `secs`) starting at `i`. Two
   * leading digits are tried first; one digit is tried only when the second character
   * is already the colon.
   */
  function ClockEnd(s: string, i: nat, secs: bool): (r: Option<nat>)
    ensures r.Some? ==> i + 4 <= r.value <= |s| && IsDigit(s[i])
  {
    var colon := if TwoDigits(s, i) then i + 2 else i + 1;
    if i < |s| && IsDigit(s[i]) && colon < |s| && s[colon] == ':' && TwoDigits(s, colon + 1) then
      var e := colon + 3;
      if !secs then Some(e)
      else if e < |s| && s[e] == ':' && TwoDigits(s, e + 1) then Some(e + 3)
      else None
    else None
  }

  /** `\b` at position `i`. */
  predicate WordBoundary(s: string, i: nat)
    requires i <= |s|
  {
    (0 < i && IsWordChar(s[i - 1])) != (i < |s| && IsWordChar(s[i]))
  }

  /** The ten timestamp forms that are deleted outright. */
  datatype Pattern =
    | Bracketed(open: char, close: char, secs: bool)  // `[H:MM:SS]`, `(M:SS)`, `【H:MM:SS】`, …
    | WithMillis                                       // `\b\d{1,2}:\d{2}:\d{2}\.\d{1,3}\b`
    | Standalone                                       // `\b\d{1,2}:\d{2}:\d{2}\b`

  /** The patterns in the order the source applies them. */
  const Patterns: seq<Pattern> := [
    Bracketed('[', ']', true), Bracketed('[', ']', false),
    Bracketed('(', ')', true), Bracketed('(', ')', false),
    Bracketed('<', '>', true), Bracketed('<', '>', false),
    WithMillis, Standalone,
    Bracketed('【', '】', true), Bracketed('【', '】', false)
  ]

  /** Where a match of `p` starting at `i` ends, if there is one. */
  function MatchEnd(p: Pattern, s: string, i: nat): (r: Option<nat>)
    ensures r.Some? ==> i < r.value <= |s|
    ensures r.Some? ==> i + 1 < |s| && (IsDigit(s[i]) || IsDigit(s[i + 1]))
  {
    if i > |s| then None
    else match p
      case Bracketed(open, close, secs) =>
        if i < |s| && s[i] == open then
          match ClockEnd(s, i + 1, secs)
          case Some(e) => if e < |s| && s[e] == close then Some(e + 1) else None
          case None => None
        else None
      case WithMillis =>
        if WordBoundary(s, i) then
          match ClockEnd(s, i, true)
          case Some(e) =>
            if e < |s| && s[e] == '.' then
              var r := RunEnd(s, e + 1, IsDigit);
              if e + 1 < r <= e + 4 && WordBoundary(s, r) then Some(r) else None
            else None
          case None => None
        else None
      case Standalone =>
        if WordBoundary(s, i) then
          match ClockEnd(s, i, true)
          case Some(e) => if WordBoundary(s, e) then Some(e) else None
          case None => None
        else None
  }

  /** `s.replace(pattern, '')`. */
  function Deleting(p: Pattern): Matcher {
    (s: string, i: nat) =>
      match MatchEnd(p, s, i)
      case Some(e) => Some(Hit(e - i, []))
      case None => None
  }

  /** `(?=\s|$)` at `e`. */
  predicate FollowedBySpace(s: string, e: nat) {
    e == |s| || (e < |s| && IsSpace(s[e]))
  }

  /**
   * `/(^|\s)\d{1,2}:\d{2}(?=\s|$)/g` replaced by `'$1'`: a bare `M:SS` at the start of the
   * text or after a whitespace character, before whitespace or the end, is deleted and the
   * whitespace before it kept.
   */
  function BareClock(): Matcher {
    (s: string, i: nat) =>
      if i == 0 && ClockEnd(s, 0, false).Some? && FollowedBySpace(s, ClockEnd(s, 0, false).value) then
        Some(Hit(ClockEnd(s, 0, false).value, []))
      else if i < |s| && IsSpace(s[i]) && ClockEnd(s, i + 1, false).Some?
              && FollowedBySpace(s, ClockEnd(s, i + 1, false).value) then
        Some(Hit(ClockEnd(s, i + 1, false).value - i, [s[i]]))
      else None
  }

  /** The patterns `ps` applied one after the other. */
  function ApplyPatterns(text: string, ps: seq<Pattern>): string {
    if ps == [] then text
    else ReplaceGlobal(ApplyPatterns(text, ps[..|ps| - 1]), Deleting(ps[|ps| - 1]))
  }

  /** The timestamp deletions: the ten patterns, then the bare `M:SS` rule. */
  function Strip(text: string): string {
    ReplaceGlobal(ApplyPatterns(text, Patterns), BareClock())
  }

  predicate IsNewline(c: char) {
    c == '\n'
  }

  predicate IsSpaceChar(c: char) {
    c == ' '
  }

  /** `/ {2,}/g` replaced by a single space. */
  function Spaces(): Matcher {
    Run(IsSpaceChar, 2, " ")
  }

  /** `/\n{3,}/g` replaced by a blank line. */
  function Newlines(): Matcher {
    Run(IsNewline, 3, "\n\n")
  }

  /** `^` of a multiline regular expression at position `i`. */
  predicate LineStart(s: string, i: nat)
    requires i <= |s|
  {
    i == 0 || IsLineTerminator(s[i - 1])
  }

  /** `/^[ \t]+/gm` replaced by `''`: spaces and tabs at the start of each line. */
  function LeadingBlanks(): Matcher {
    (s: string, i: nat) =>
      if i < |s| && IsBlank(s[i]) && LineStart(s, i) then Some(Hit(RunEnd(s, i, IsBlank) - i, []))
      else None
  }

  /** `/[ \t]+$/gm` replaced by `''`: spaces and tabs at the end of each line. */
  function TrailingBlanks(): Matcher {
    (s: string, i: nat) =>
      if i < |s| && IsBlank(s[i]) then
        var r := RunEnd(s, i, IsBlank);
        if r == |s| || IsLineTerminator(s[r]) then Some(Hit(r - i, [])) else None
      else None
  }

  /** The clean-up after the deletions, then `trim()`, corrected to strip only spaces and tabs at line ends. */
  function TidyCorrected(s: string): string {
    Trim(ReplaceGlobal(ReplaceGlobal(ReplaceGlobal(ReplaceGlobal(s, Spaces()), LeadingBlanks()), TrailingBlanks()), Newlines()))
  }

  /** `removeTimestamps(text)` corrected: the line clean-up strips only spaces and tabs, so blank lines stay. */
  function SpecCorrected(text: string): string {
    if text == [] then text else TidyCorrected(Strip(text))
  }

  // ---------------------------------------------------------------------------
  // The clean-up as written: `\s` also matches line breaks.

  /** `/^\s+/gm` replaced by `''`. */
  function LeadingWhitespace(): Matcher {
    (s: string, i: nat) =>
      if i < |s| && IsSpace(s[i]) && LineStart(s, i) then Some(Hit(RunEnd(s, i, IsSpace) - i, []))
      else None
  }

  /** The last `k` with `i < k <= j` at which `$` of a multiline regular expression holds. */
  function LastLineEnd(s: string, i: nat, j: nat): (r: Option<nat>)
    requires j <= |s|
    ensures r.Some? ==> i < r.value <= j
    decreases j
  {
    if j <= i then None
    else if j == |s| || IsLineTerminator(s[j]) then Some(j)
    else LastLineEnd(s, i, j - 1)
  }

  /** `/\s+$/gm` replaced by `''`: the longest whitespace run from `i` that ends at a line end. */
  function TrailingWhitespace(): Matcher {
    (s: string, i: nat) =>
      if i < |s| && IsSpace(s[i]) then
        match LastLineEnd(s, i, RunEnd(s, i, IsSpace))
        case Some(k) => Some(Hit(k - i, []))
        case None => None
      else None
  }

  /** The clean-up after the deletions, then `trim()`, as written. */
  function TidyAsWritten(s: string): string {
    Trim(ReplaceGlobal(ReplaceGlobal(ReplaceGlobal(ReplaceGlobal(s, Spaces()), LeadingWhitespace()), TrailingWhitespace()), Newlines()))
  }

  /** `removeTimestamps(text)` as written. */
  function SpecAsWritten(text: string): string {
    if text == [] then text else TidyAsWritten(Strip(text))
  }

  // ---------------------------------------------------------------------------

  /** The source's two loops over its pattern lists, then the clean-up. */
  method RemoveTimestamps(text: string) returns (result: string)
    ensures result == SpecAsWritten(text)
  {
    if text == [] {
      return text;
    }
    result := DeletePatterns(text);
    var withCaptures := [BareClock()];
    for k := 0 to |withCaptures|
      invariant k == 0 ==> result == ApplyPatterns(text, Patterns)
      invariant k == 1 ==> result == Strip(text)
    {
      result := ReplaceGlobal(result, withCaptures[k]);
    }
    result := CleanUp(result);
  }

  /** The first loop: each of the ten patterns deleted in turn. */
  method DeletePatterns(text: string) returns (result: string)
    ensures result == ApplyPatterns(text, Patterns)
  {
    result := text;
    for k := 0 to |Patterns|
      invariant result == ApplyPatterns(text, Patterns[..k])
    {
      assert Patterns[..k + 1][..k] == Patterns[..k];
      result := ReplaceGlobal(result, Deleting(Patterns[k]));
    }
    assert Patterns[..|Patterns|] == Patterns;
  }

  /** The clean-up after the deletions, as written. */
  method CleanUp(s: string) returns (result: string)
    ensures result == TidyAsWritten(s)
  {
    result := ReplaceGlobal(s, Spaces());
    result := ReplaceGlobal(result, LeadingWhitespace());
    result := ReplaceGlobal(result, TrailingWhitespace());
    result := ReplaceGlobal(result, Newlines());
    result := Trim(result);
  }

  /** `hasTimestamps(text)`: one of the ten patterns matches somewhere. */
  function HasTimestamps(text: string): (r: bool)
    ensures text == [] ==> !r
  {
    text != [] && exists k, i :: 0 <= k < |Patterns| && 0 <= i <= |text| && MatchEnd(Patterns[k], text, i).Some?
  }

  /** None of the patterns `ps` matches `text` anywhere. */
  predicate NoneMatch(text: string, ps: seq<Pattern>) {
    forall k, i :: 0 <= k < |ps| && 0 <= i <= |text| ==> MatchEnd(ps[k], text, i).None?
  }

  /** Without a timestamp, the ten deletion patterns leave the text as it is. */
  lemma NoTimestampsNoDeletion(text: string)
    requires !HasTimestamps(text)
    ensures ApplyPatterns(text, Patterns) == text
  {
    assert NoneMatch(text, Patterns);
    NoneKeeps(text, Patterns);
  }

  lemma {:induction false} NoneKeeps(text: string, ps: seq<Pattern>)
    requires NoneMatch(text, ps)
    ensures ApplyPatterns(text, ps) == text
  {
    if ps != [] {
      var init := ps[..|ps| - 1];
      assert NoneMatch(text, init) by {
        forall k, i | 0 <= k < |init| && 0 <= i <= |text| ensures MatchEnd(init[k], text, i).None? {
          assert init[k] == ps[k];
        }
      }
      NoneKeeps(text, init);
      var p := ps[|ps| - 1];
      assert forall i :: 0 <= i <= |text| ==> MatchEnd(p, text, i).None?;
      PatternIdle(text, p);
    }
  }

  /** A pattern that matches nowhere deletes nothing. */
  lemma PatternIdle(text: string, p: Pattern)
    requires forall i :: 0 <= i <= |text| ==> MatchEnd(p, text, i).None?
    ensures ReplaceGlobal(text, Deleting(p)) == text
  {
    var m := Deleting(p);
    forall j | 0 <= j <= |text| ensures !ValidHit(text, m, j) {
      assert MatchEnd(p, text, j).None?;
    }
    NoHitIdentity(text, m, 0);
  }

  /** A deletion never lengthens the text, and shortens it when its pattern matches. */
  lemma PatternShortens(text: string, p: Pattern)
    ensures |ReplaceGlobal(text, Deleting(p))| <= |text|
    ensures (exists i :: 0 <= i <= |text| && MatchEnd(p, text, i).Some?) ==> |ReplaceGlobal(text, Deleting(p))| < |text|
  {
    var m := Deleting(p);
    NotLonger(text, m, 0);
    if exists i :: 0 <= i <= |text| && MatchEnd(p, text, i).Some? {
      var i :| 0 <= i <= |text| && MatchEnd(p, text, i).Some?;
      assert ValidHit(text, m, i);
      Shorter(text, m, 0, i);
    }
  }

  /** When pattern `k` of `ps` matches at `i`, applying the patterns shortens the text. */
  lemma {:induction false} SomeShortens(text: string, ps: seq<Pattern>, k: nat, i: nat)
    requires k < |ps| && i <= |text| && MatchEnd(ps[k], text, i).Some?
    ensures |ApplyPatterns(text, ps)| < |text|
  {
    var init := ps[..|ps| - 1];
    var prev := ApplyPatterns(text, init);
    PatternShortens(prev, ps[|ps| - 1]);
    if k < |init| {
      assert init[k] == ps[k];
      SomeShortens(text, init, k, i);
    } else if NoneMatch(text, init) {
      NoneKeeps(text, init);
      assert MatchEnd(ps[|ps| - 1], prev, i).Some?;
    } else {
      var k', i' :| 0 <= k' < |init| && 0 <= i' <= |text| && MatchEnd(init[k'], text, i').Some?;
      SomeShortens(text, init, k', i');
    }
  }

  /** `hasTimestamps` holds exactly when the ten deletions of `removeTimestamps` change the text. */
  lemma TimestampsDeleted(text: string)
    ensures HasTimestamps(text) <==> ApplyPatterns(text, Patterns) != text
  {
    if HasTimestamps(text) {
      var k, i :| 0 <= k < |Patterns| && 0 <= i <= |text| && MatchEnd(Patterns[k], text, i).Some?;
      SomeShortens(text, Patterns, k, i);
    } else {
      NoTimestampsNoDeletion(text);
    }
  }

  lemma {:induction false} ApplyPatternsNotLonger(text: string, ps: seq<Pattern>)
    ensures |ApplyPatterns(text, ps)| <= |text|
  {
    if ps != [] {
      ApplyPatternsNotLonger(text, ps[..|ps| - 1]);
      NotLonger(ApplyPatterns(text, ps[..|ps| - 1]), Deleting(ps[|ps| - 1]), 0);
    }
  }

  lemma StripNotLonger(text: string)
    ensures |Strip(text)| <= |text|
  {
    ApplyPatternsNotLonger(text, Patterns);
    NotLonger(ApplyPatterns(text, Patterns), BareClock(), 0);
  }

  lemma DeletionNotLonger(s: string, m: Matcher)
    requires m in {LeadingBlanks(), TrailingBlanks(), LeadingWhitespace(), TrailingWhitespace()}
    ensures |ReplaceGlobal(s, m)| <= |s|
  {
    NotLonger(s, m, 0);
  }

  /**
   * Empty text comes back as it is and has no timestamp; any output is trimmed and never
   * longer than the input, and the same holds as written.
   */
  lemma SpecShape(text: string)
    ensures text == [] ==> SpecCorrected(text) == text && !HasTimestamps(text)
    ensures |SpecCorrected(text)| <= |text| && IsTrimmed(SpecCorrected(text))
    ensures |SpecAsWritten(text)| <= |text| && IsTrimmed(SpecAsWritten(text))
  {
    if text != [] {
      var s := Strip(text);
      StripNotLonger(text);
      var a := ReplaceGlobal(s, Spaces());
      RunNotLonger(s, IsSpaceChar, 2, " ");
      var b := ReplaceGlobal(a, LeadingBlanks());
      DeletionNotLonger(a, LeadingBlanks());
      var c := ReplaceGlobal(b, TrailingBlanks());
      DeletionNotLonger(b, TrailingBlanks());
      RunNotLonger(c, IsNewline, 3, "\n\n");
      TrimIdempotent(ReplaceGlobal(c, Newlines()));
      var b' := ReplaceGlobal(a, LeadingWhitespace());
      DeletionNotLonger(a, LeadingWhitespace());
      var c' := ReplaceGlobal(b', TrailingWhitespace());
      DeletionNotLonger(b', TrailingWhitespace());
      RunNotLonger(c', IsNewline, 3, "\n\n");
      TrimIdempotent(ReplaceGlobal(c', Newlines()));
    }
  }

  predicate NoDigits(s: string) {
    forall k :: 0 <= k < |s| ==> !IsDigit(s[k])
  }

  /** Text without digits has no timestamp of any form. */
  lemma {:induction false} NoDigitsKeep(t: string, ps: seq<Pattern>)
    requires NoDigits(t)
    ensures ApplyPatterns(t, ps) == t
    ensures ReplaceGlobal(t, BareClock()) == t
  {
    if ps != [] {
      NoDigitsKeep(t, ps[..|ps| - 1]);
      var p := ps[|ps| - 1];
      var m := Deleting(p);
      forall j | 0 <= j <= |t| ensures !ValidHit(t, m, j) {
        assert MatchEnd(p, t, j).None?;
      }
      NoHitIdentity(t, m, 0);
    }
    forall j | 0 <= j <= |t| ensures !ValidHit(t, BareClock(), j) {
      assert ClockEnd(t, j + 1, false).None? && ClockEnd(t, 0, false).None?;
    }
    NoHitIdentity(t, BareClock(), 0);
  }

  lemma {:induction false} ApplyPatternsConcat(t: string, a: seq<Pattern>, b: seq<Pattern>)
    ensures ApplyPatterns(t, a + b) == ApplyPatterns(ApplyPatterns(t, a), b)
    decreases |b|
  {
    if b == [] {
      assert a + b == a;
    } else {
      var b0 := b[..|b| - 1];
      assert (a + b)[..|a + b| - 1] == a + b0;
      ApplyPatternsConcat(t, a, b0);
    }
  }

  lemma BlanksAbsent(s: string)
    requires forall k :: 0 <= k < |s| ==> !IsBlank(s[k])
    ensures ReplaceGlobal(s, LeadingBlanks()) == s
    ensures ReplaceGlobal(s, TrailingBlanks()) == s
  {
    NoHitIdentity(s, LeadingBlanks(), 0);
    NoHitIdentity(s, TrailingBlanks(), 0);
  }

  /**
   * Text that is already clean (no digits, no spaces or tabs, no run of three line feeds,
   * trimmed) comes back unchanged: in particular its blank lines between paragraphs survive.
   */
  lemma CleanTextUnchanged(text: string)
    requires NoDigits(text) && IsTrimmed(text) && NoRunOf(text, IsNewline, 3)
    requires forall k :: 0 <= k < |text| ==> !IsBlank(text[k])
    ensures SpecCorrected(text) == text
  {
    if text != [] {
      NoDigitsKeep(text, Patterns);
      assert NoRunOf(text, IsSpaceChar, 2) by {
        forall k | 0 <= k < |text| ensures RunEnd(text, k, IsSpaceChar) - k < 2 {
          assert !IsSpaceChar(text[k]);
        }
      }
      RunAbsent(text, IsSpaceChar, 2, " ");
      BlanksAbsent(text);
      RunAbsent(text, IsNewline, 3, "\n\n");
      TrimOfTrimmed(text);
    }
  }

  /** A non-empty run of text with no whitespace and no digit, such as a line of prose. */
  predicate Word(w: string) {
    w != [] && forall k :: 0 <= k < |w| ==> !IsSpace(w[k]) && !IsDigit(w[k])
  }

  /** Two lines of prose separated by a blank line. */
  function Paragraphs(a: string, b: string): string {
    a + "\n\n" + b
  }

  lemma ParagraphsFacts(a: string, b: string)
    requires Word(a) && Word(b)
    ensures var t := Paragraphs(a, b);
      NoDigits(t) && IsTrimmed(t) && NoRunOf(t, IsNewline, 3)
      && (forall k :: 0 <= k < |t| ==> !IsBlank(t[k]) && !IsSpaceChar(t[k]))
      && (forall k :: 0 <= k < |t| && k != |a| && k != |a| + 1 ==> !IsSpace(t[k]))
  {
    var t := Paragraphs(a, b);
    var n := |a|;
    assert t[n] == '\n' && t[n + 1] == '\n';
    forall k | 0 <= k < |t| && k != n && k != n + 1 ensures !IsSpace(t[k]) && !IsDigit(t[k]) {
      if k < n {
        assert t[k] == a[k];
      } else {
        assert t[k] == b[k - n - 2];
      }
    }
    forall k | 0 <= k < |t| ensures RunEnd(t, k, IsNewline) - k < 3 {
      if k == n {
        RunEndAt(t, n, n + 2, IsNewline);
      } else if k != n + 1 {
        RunEndAt(t, k, k, IsNewline);
      }
    }
  }

  /** Prose paragraphs separated by a blank line come back unchanged. */
  lemma KeepsParagraphs(a: string, b: string)
    requires Word(a) && Word(b)
    ensures SpecCorrected(Paragraphs(a, b)) == Paragraphs(a, b)
  {
    ParagraphsFacts(a, b);
    CleanTextUnchanged(Paragraphs(a, b));
  }

  /** Prose paragraphs have no timestamp and no run of spaces. */
  lemma ParagraphsStripped(a: string, b: string)
    requires Word(a) && Word(b)
    ensures Strip(Paragraphs(a, b)) == Paragraphs(a, b)
    ensures ReplaceGlobal(Paragraphs(a, b), Spaces()) == Paragraphs(a, b)
  {
    var t := Paragraphs(a, b);
    ParagraphsFacts(a, b);
    NoDigitsKeep(t, Patterns);
    forall k | 0 <= k < |t| ensures RunEnd(t, k, IsSpaceChar) - k < 2 {
      RunEndAt(t, k, k, IsSpaceChar);
    }
    RunAbsent(t, IsSpaceChar, 2, " ");
  }

  /** Two words around one line break hold no run of three line breaks and are trimmed. */
  lemma SingleBreakSettled(a: string, b: string)
    requires Word(a) && Word(b)
    ensures ReplaceGlobal(a + "\n" + b, Newlines()) == a + "\n" + b
    ensures IsTrimmed(a + "\n" + b)
  {
    var u := a + "\n" + b;
    forall k | 0 <= k < |u| ensures RunEnd(u, k, IsNewline) - k < 3 {
      if k == |a| {
        assert u[k + 1] == b[0];
        RunEndAt(u, k, k + 1, IsNewline);
      } else if k < |a| {
        assert u[k] == a[k];
        RunEndAt(u, k, k, IsNewline);
      } else {
        assert u[k] == b[k - |a| - 1];
        RunEndAt(u, k, k, IsNewline);
      }
    }
    RunAbsent(u, IsNewline, 3, "\n\n");
    assert u[0] == a[0] && u[|u| - 1] == b[|b| - 1];
  }

  /** As written, the blank line between two prose paragraphs is deleted. */
  lemma AsWrittenJoinsParagraphs(a: string, b: string)
    requires Word(a) && Word(b)
    ensures SpecAsWritten(Paragraphs(a, b)) == a + "\n" + b
  {
    ParagraphsStripped(a, b);
    JoinsBlankLine(a, b);
    KeepsSingleBreak(a, b);
    SingleBreakSettled(a, b);
    TrimOfTrimmed(a + "\n" + b);
  }

  lemma JoinsBlankLine(a: string, b: string)
    requires Word(a) && Word(b)
    ensures ReplaceGlobal(Paragraphs(a, b), LeadingWhitespace()) == a + "\n" + b
  {
    var t := Paragraphs(a, b);
    var m := LeadingWhitespace();
    var n := |a|;
    LeadingMisses(a, b);
    LeadingHit(a, b);
    NoHitSpan(t, m, 0, n + 1);
    HitStep(t, m, n + 1);
    NoHitIdentity(t, m, n + 2);
    assert t[0..n + 1] == a + "\n";
    assert t[n + 2..] == b;
  }

  /** Only the second newline of the blank line starts a line with whitespace. */
  lemma LeadingMisses(a: string, b: string)
    requires Word(a) && Word(b)
    ensures forall j :: 0 <= j <= |Paragraphs(a, b)| && j != |a| + 1 ==>
      !ValidHit(Paragraphs(a, b), LeadingWhitespace(), j)
  {
    var t := Paragraphs(a, b);
    ParagraphsFacts(a, b);
    assert t[|a| - 1] == a[|a| - 1];
  }

  lemma LeadingHit(a: string, b: string)
    requires Word(a) && Word(b)
    ensures LeadingWhitespace()(Paragraphs(a, b), |a| + 1) == Some(Hit(1, []))
  {
    var t := Paragraphs(a, b);
    var n := |a|;
    ParagraphsFacts(a, b);
    assert t[n + 2] == b[0];
    RunEndAt(t, n + 1, n + 2, IsSpace);
  }

  lemma KeepsSingleBreak(a: string, b: string)
    requires Word(a) && Word(b)
    ensures ReplaceGlobal(a + "\n" + b, TrailingWhitespace()) == a + "\n" + b
  {
    var u := a + "\n" + b;
    var n := |a|;
    var m := TrailingWhitespace();
    assert u[n] == '\n' && u[n + 1] == b[0];
    RunEndAt(u, n, n + 1, IsSpace);
    assert LastLineEnd(u, n, n + 1) == None;
    forall j | 0 <= j <= |u| ensures !ValidHit(u, m, j) {
      if j < n {
        assert u[j] == a[j];
      } else if n < j < |u| {
        assert u[j] == b[j - n - 1];
      }
    }
    NoHitIdentity(u, m, 0);
  }

  /** `"[00:01:23] 大家好"` becomes `"大家好"`. */
  lemma BracketedExample()
    ensures SpecCorrected("[00:01:23] 大家好") == "大家好"
    ensures SpecAsWritten("[00:01:23] 大家好") == "大家好"
  {
    StripBracketed();
    var w := "大家好";
    assert Word(w) by {
      forall k | 0 <= k < |w| ensures !IsSpace(w[k]) && !IsDigit(w[k]) {
        assert k < 3;
      }
    }
    assert " 大家好" == " " + w;
    TidyLeadingSpace(w);
    TidyAsWrittenLeadingSpace(w);
  }

  const BRACKETED: string := "[00:01:23] 大家好"

  /** The first pattern matches the whole bracketed timestamp. */
  lemma BracketHit()
    ensures MatchEnd(Patterns[0], BRACKETED, 0) == Some(10)
  {
    assert ClockEnd(BRACKETED, 1, true) == Some(9);
  }

  /** After the bracketed timestamp the first pattern matches nowhere. */
  lemma BracketRest()
    ensures forall j :: 10 <= j <= |BRACKETED| ==> !ValidHit(BRACKETED, Deleting(Patterns[0]), j)
  {
    var t := BRACKETED;
    forall j | 10 <= j <= |t| ensures !ValidHit(t, Deleting(Patterns[0]), j) {
      assert j < 14 ==> t[j] != '[';
    }
  }

  lemma BracketSlices()
    ensures BRACKETED[10..] == " 大家好"
    ensures NoDigits(" 大家好")
  {
    var rest := " 大家好";
    forall k | 0 <= k < |rest| ensures !IsDigit(rest[k]) {
      assert k < 4;
    }
  }

  lemma FirstPatternDeletes()
    ensures ApplyPatterns(BRACKETED, Patterns[..1]) == " 大家好"
  {
    var t := BRACKETED;
    var m := Deleting(Patterns[0]);
    BracketHit();
    BracketRest();
    HitStep(t, m, 0);
    NoHitIdentity(t, m, 10);
    BracketSlices();
    assert Patterns[..1][..0] == [];
  }

  lemma StripBracketed()
    ensures Strip("[00:01:23] 大家好") == " 大家好"
  {
    FirstPatternDeletes();
    assert Patterns == Patterns[..1] + Patterns[1..];
    ApplyPatternsConcat(BRACKETED, Patterns[..1], Patterns[1..]);
    BracketSlices();
    NoDigitsKeep(" 大家好", Patterns[1..]);
  }

  /** One space before a word is dropped by the clean-up. */
  lemma TidyLeadingSpace(w: string)
    requires Word(w)
    ensures TidyCorrected(" " + w) == w
  {
    SingleSpaceKept(w);
    DropsLeadingSpace(w);
    WordIsTidy(w);
  }

  /** The same for the clean-up as written. */
  lemma TidyAsWrittenLeadingSpace(w: string)
    requires Word(w)
    ensures TidyAsWritten(" " + w) == w
  {
    SingleSpaceKept(w);
    DropsLeadingWhitespace(w);
    WordIsTidyAsWritten(w);
  }

  /** A single space before a word is not a run of spaces. */
  lemma SingleSpaceKept(w: string)
    requires Word(w)
    ensures ReplaceGlobal(" " + w, Spaces()) == " " + w
  {
    var t := " " + w;
    forall k | 0 <= k < |t| ensures RunEnd(t, k, IsSpaceChar) - k < 2 {
      if k == 0 {
        assert t[1] == w[0];
        RunEndAt(t, 0, 1, IsSpaceChar);
      } else {
        assert t[k] == w[k - 1];
        RunEndAt(t, k, k, IsSpaceChar);
      }
    }
    RunAbsent(t, IsSpaceChar, 2, " ");
  }

  lemma DropsLeadingWhitespace(w: string)
    requires Word(w)
    ensures ReplaceGlobal(" " + w, LeadingWhitespace()) == w
  {
    var t := " " + w;
    var m := LeadingWhitespace();
    assert t[1] == w[0];
    RunEndAt(t, 0, 1, IsSpace);
    assert m(t, 0) == Some(Hit(1, []));
    forall j | 1 <= j < |t| ensures !ValidHit(t, m, j) {
      assert t[j] == w[j - 1];
    }
    NoHitSpan(t, m, 1, |t|);
    assert t[1..] == w;
  }

  lemma WordIsTidyAsWritten(w: string)
    requires Word(w)
    ensures Trim(ReplaceGlobal(ReplaceGlobal(w, TrailingWhitespace()), Newlines())) == w
  {
    forall k | 0 <= k < |w| ensures RunEnd(w, k, IsNewline) - k < 3 {
      RunEndAt(w, k, k, IsNewline);
    }
    NoHitIdentity(w, TrailingWhitespace(), 0);
    RunAbsent(w, IsNewline, 3, "\n\n");
    TrimOfTrimmed(w);
  }

  lemma DropsLeadingSpace(w: string)
    requires Word(w)
    ensures ReplaceGlobal(" " + w, LeadingBlanks()) == w
  {
    var t := " " + w;
    var m := LeadingBlanks();
    assert t[1] == w[0];
    RunEndAt(t, 0, 1, IsBlank);
    assert m(t, 0) == Some(Hit(1, []));
    forall j | 1 <= j < |t| ensures !ValidHit(t, m, j) {
      assert t[j] == w[j - 1];
    }
    NoHitSpan(t, m, 1, |t|);
    assert t[1..] == w;
  }

  lemma WordIsTidy(w: string)
    requires Word(w)
    ensures Trim(ReplaceGlobal(ReplaceGlobal(w, TrailingBlanks()), Newlines())) == w
  {
    forall k | 0 <= k < |w| ensures !IsBlank(w[k]) && RunEnd(w, k, IsNewline) - k < 3 {
      RunEndAt(w, k, k, IsNewline);
    }
    BlanksAbsent(w);
    RunAbsent(w, IsNewline, 3, "\n\n");
    TrimOfTrimmed(w);
  }

  /** A bare `1:23` between words is deleted and the space before it kept. */
  lemma BareClockKeepsSpace(a: string, b: string)
    requires Word(a) && Word(b)
    ensures ReplaceGlobal(a + " 1:23 " + b, BareClock()) == a + "  " + b
  {
    var t := a + " 1:23 " + b;
    var n := |a|;
    BareClockBefore(a, b);
    BareClockAt(a, b);
    BareClockAfter(a, b);
    assert t[0..n] == a;
  }

  lemma BareClockBefore(a: string, b: string)
    requires Word(a) && Word(b)
    ensures var t := a + " 1:23 " + b;
      ReplaceFrom(t, BareClock(), 0) == t[0..|a|] + ReplaceFrom(t, BareClock(), |a|)
  {
    var t := a + " 1:23 " + b;
    var m := BareClock();
    assert t[0] == a[0];
    assert ClockEnd(t, 0, false) == None;
    forall j | 0 <= j < |a| ensures !ValidHit(t, m, j) {
      assert t[j] == a[j];
    }
    NoHitSpan(t, m, 0, |a|);
  }

  /** A space, `1:23` and a space: the bare-clock rule matches at the first space. */
  lemma BareClockMatch(t: string, n: nat)
    requires n + 5 < |t| && t[n] == ' ' && t[n + 1] == '1' && t[n + 2] == ':' && t[n + 3] == '2' && t[n + 4] == '3'
    requires t[n + 5] == ' '
    ensures ValidHit(t, BareClock(), n) && BareClock()(t, n) == Some(Hit(5, [' ']))
  {
    assert ClockEnd(t, n + 1, false) == Some(n + 5);
  }

  lemma ClockChars(a: string, b: string)
    ensures var t := a + " 1:23 " + b; var n := |a|;
      n + 5 < |t| && t[n] == ' ' && t[n + 1] == '1' && t[n + 2] == ':' && t[n + 3] == '2' && t[n + 4] == '3'
      && t[n + 5] == ' '
  {
  }

  lemma BareClockAt(a: string, b: string)
    ensures var t := a + " 1:23 " + b;
      ReplaceFrom(t, BareClock(), |a|) == " " + ReplaceFrom(t, BareClock(), |a| + 5)
  {
    ClockChars(a, b);
    BareClockMatch(a + " 1:23 " + b, |a|);
    HitStep(a + " 1:23 " + b, BareClock(), |a|);
  }

  lemma BareClockAfter(a: string, b: string)
    requires Word(a) && Word(b)
    ensures var t := a + " 1:23 " + b;
      ReplaceFrom(t, BareClock(), |a| + 5) == " " + b
  {
    var pre := a + " 1:23 ";
    var t := pre + b;
    var n := |a|;
    BareClockAfterNoHit(a, b);
    NoHitSpan(t, BareClock(), n + 5, |t|);
    assert ReplaceFrom(t, BareClock(), |t|) == [];
    SliceOfConcat(pre, b, n + 5);
    assert pre[n + 5..] == " ";
  }

  lemma SliceOfConcat(pre: string, b: string, k: nat)
    requires k <= |pre|
    ensures (pre + b)[k..] == pre[k..] + b
  {
  }

  lemma BareClockAfterNoHit(a: string, b: string)
    requires Word(a) && Word(b)
    ensures var t := a + " 1:23 " + b;
      forall j :: |a| + 5 <= j < |t| ==> !ValidHit(t, BareClock(), j)
  {
    var pre := a + " 1:23 ";
    var t := pre + b;
    var n := |a|;
    var m := BareClock();
    assert |pre| == n + 6;
    assert t[n + 5] == ' ' && t[n + 6] == b[0];
    assert !IsDigit(t[n + 6]);
    assert ClockEnd(t, n + 6, false) == None;
    assert m(t, n + 5) == None;
    forall j | n + 5 < j < |t| ensures !ValidHit(t, m, j) {
      SuffixChar(pre, b, j);
      BareClockNeedsSpace(t, j);
    }
  }

  lemma SuffixChar(pre: string, b: string, j: nat)
    requires Word(b) && |pre| <= j < |pre| + |b|
    ensures !IsSpace((pre + b)[j])
  {
    assert (pre + b)[j] == b[j - |pre|];
  }

  lemma BareClockNeedsSpace(t: string, j: nat)
    requires 0 < j < |t| && !IsSpace(t[j])
    ensures BareClock()(t, j) == None
  {
  }
}
