/**
 * `fixPunctuation` (lib/processors/fixPunctuation.ts): half-width marks next to Chinese
 * become full-width, repeated marks collapse, straight quotes and parentheses around
 * Chinese become 「」『』（）, whitespace around full-width marks is dropped, a space is
 * put between a mark and a following Latin letter, long dot runs become an ellipsis,
 * every paragraph ending in a bare ideograph gets a full stop, and runs of whitespace
 * collapse. Every rule is a global regular-expression replacement, modelled as a matcher.
 *
 * "Chinese" here is the range U+4E00–U+9FA5 (`IsHanBasic`).
 */
module FixPunctuation {
  import opened Wrappers
  import opened Chars
  import opened Rewrite
  import Spacing

  /** The half-width marks the first step widens: , . : ; ? ! */
  predicate IsHalfMark(c: char) {
    c == ',' || c == '.' || c == ':' || c == ';' || c == '?' || c == '!'
  }

  /** The full-width marks whose repeats collapse: ，。！？；：、 */
  predicate IsFullMark(c: char) {
    c == '，' || c == '。' || c == '！' || c == '？' || c == '；' || c == '：' || c == '、'
  }

  /** The marks a paragraph may already end with: 。！？；：」』） */
  predicate IsFinalMark(c: char) {
    c == '。' || c == '！' || c == '？' || c == '；' || c == '：' || c == '」' || c == '』' || c == '）'
  }

  /** Whitespace other than a line break. */
  predicate IsInlineSpace(c: char) {
    IsSpace(c) && !IsLineTerminator(c)
  }

  // ---------------------------------------------------------------------------
  // Step 1: half-width to full-width

  /** `/([一-龥])c/g` replaced by `'$1' + r`. */
  function After(c: char, r: char): Matcher {
    (s: string, i: nat) =>
      if i + 1 < |s| && IsHanBasic(s[i]) && s[i + 1] == c then Some(Hit(2, [s[i], r])) else None
  }

  /** `/c(?=[一-龥])/g` replaced by `r`: the ideograph is looked at, not consumed. */
  function Before(c: char, r: char): Matcher {
    (s: string, i: nat) =>
      if i + 1 < |s| && s[i] == c && IsHanBasic(s[i + 1]) then Some(Hit(1, [r])) else None
  }

  /** Commas and full stops next to an ideograph. */
  function WidenedStops(s: string): string {
    var a := ReplaceGlobal(s, After(',', '，'));
    var b := ReplaceGlobal(a, After('.', '。'));
    var c := ReplaceGlobal(b, Before(',', '，'));
    ReplaceGlobal(c, Before('.', '。'))
  }

  /** Colons, semicolons, question and exclamation marks after an ideograph. */
  function WidenedOthers(s: string): string {
    var a := ReplaceGlobal(s, After(':', '：'));
    var b := ReplaceGlobal(a, After(';', '；'));
    var c := ReplaceGlobal(b, After('?', '？'));
    ReplaceGlobal(c, After('!', '！'))
  }

  function Widened(s: string): string {
    WidenedOthers(WidenedStops(s))
  }

  // ---------------------------------------------------------------------------
  // Step 2: repeated marks

  /** `/，{2,}/g` → '，' and so on for ，。！？；：、 */
  function CollapsedFull(s: string): string {
    var a := ReplaceGlobal(s, Run(Is('，'), 2, "，"));
    var b := ReplaceGlobal(a, Run(Is('。'), 2, "。"));
    var c := ReplaceGlobal(b, Run(Is('！'), 2, "！"));
    var d := ReplaceGlobal(c, Run(Is('？'), 2, "？"));
    var e := ReplaceGlobal(d, Run(Is('；'), 2, "；"));
    var f := ReplaceGlobal(e, Run(Is('：'), 2, "："));
    ReplaceGlobal(f, Run(Is('、'), 2, "、"))
  }

  /** `/,,{1,}/g` → '，', and likewise for . ! ? with their full-width forms. */
  function CollapsedHalf(s: string): string {
    var a := ReplaceGlobal(s, Run(Is(','), 2, "，"));
    var b := ReplaceGlobal(a, Run(Is('.'), 2, "。"));
    var c := ReplaceGlobal(b, Run(Is('!'), 2, "！"));
    ReplaceGlobal(c, Run(Is('?'), 2, "？"))
  }

  function Collapsed(s: string): string {
    CollapsedHalf(CollapsedFull(s))
  }

  // ---------------------------------------------------------------------------
  // Steps 3 and 4: quotes and parentheses

  /** The class `[^c]`. */
  function Other(c: char): char -> bool {
    d => d != c
  }

  /**
   * `/open([一-龥][^close]*[一-龥])close/g` replaced by `left + '$1' + right`.
   * Neither the class nor the last ideograph can be `close`, so the match ends at the first
   * `close` after the opening ideograph, or there is none.
   */
  function Wrapped(open: char, close: char, left: char, right: char): Matcher {
    (s: string, i: nat) =>
      if i + 1 < |s| && s[i] == open && IsHanBasic(s[i + 1]) then
        var q := RunEnd(s, i + 2, Other(close));
        if q < |s| && i + 3 <= q && IsHanBasic(s[q - 1]) then Some(Hit(q + 1 - i, [left] + s[i + 1..q] + [right]))
        else None
      else None
  }

  function Bracketed(s: string): string {
    var a := ReplaceGlobal(s, Wrapped('"', '"', '「', '」'));
    var b := ReplaceGlobal(a, Wrapped('\'', '\'', '『', '』'));
    ReplaceGlobal(b, Wrapped('(', ')', '（', '）'))
  }

  // ---------------------------------------------------------------------------
  // Steps 5 to 8

  /** Whitespace before closing and after opening full-width marks is dropped. */
  function Tightened(s: string): string {
    ReplaceGlobal(ReplaceGlobal(s, SpaceBefore(IsClosingMark)), SpaceAfter(IsOpeningMark))
  }

  /** `/([，。！？；：])([a-zA-Z])/g` replaced by `'$1 $2'`. */
  function MarkLetter(): Matcher {
    (s: string, i: nat) =>
      if i + 1 < |s| && IsSentenceMark(s[i]) && IsAsciiLetter(s[i + 1]) then Some(Hit(2, [s[i], ' ', s[i + 1]]))
      else None
  }

  function Spaced(s: string): string {
    ReplaceGlobal(s, MarkLetter())
  }

  /** `\.{3,}` and then `。{3,}` become `⋯⋯`. */
  function Ellipsis(s: string): string {
    ReplaceGlobal(ReplaceGlobal(s, Run(Is('.'), 3, "⋯⋯")), Run(Is('。'), 3, "⋯⋯"))
  }

  /** Steps 1 to 8, in the source's order. */
  function Prelude(s: string): string {
    Ellipsis(Spaced(Tightened(Bracketed(Collapsed(Widened(s))))))
  }

  // ---------------------------------------------------------------------------
  // Step 9: a full stop at the end of each paragraph

  /** `/\n\n+/`, the paragraph separator. */
  function Blank(): Matcher {
    Run(Is('\n'), 2, [])
  }

  /**
   * One paragraph: trimmed, and given a full stop when it ends in an ideograph. The
   * already-punctuated check of the source never decides anything, since none of its
   * marks is an ideograph.
   */
  function Punctuate(para: string): (r: string)
    ensures r == Trim(para) || r == Trim(para) + "。"
    ensures r == Trim(para) + "。" <==> Trim(para) != [] && IsHanBasic(Trim(para)[|Trim(para)| - 1])
    ensures IsTrimmed(r)
    ensures r != [] ==> !IsHanBasic(r[|r| - 1])
  {
    var t := Trim(para);
    if t == [] then t
    else if !IsFinalMark(t[|t| - 1]) && IsHanBasic(t[|t| - 1]) then
      assert (t + "。")[0] == t[0];
      t + "。"
    else
      assert |t + "。"| != |t|;
      t
  }

  function Paragraphs(s: string): string {
    var parts := Split(s, Blank(), false);
    Join(seq(|parts|, k requires 0 <= k < |parts| => Punctuate(parts[k])), "\n\n")
  }

  // ---------------------------------------------------------------------------
  // Step 10 and the pass

  /**
   * `fixPunctuation(text)` as written: the last step, `/\s{2,}/g` → ' ', also turns the
   * "\n\n" between paragraphs into a single space.
   */
  function FixPunctuationAsWritten(text: string): (r: string)
    ensures text == [] ==> r == []
    ensures NoPair(r, IsSpace, IsSpace)
  {
    if text == [] then text
    else
      var t := Paragraphs(Prelude(text));
      Spacing.RunClears(t);
      ReplaceGlobal(t, Run(IsSpace, 2, " "))
  }

  /**
   * `fixPunctuation(text)` with the last step collapsing runs of in-line whitespace only,
   * which keeps the paragraphs step 9 has just separated.
   */
  function FixPunctuationCorrected(text: string): (r: string)
    ensures text == [] ==> r == []
    ensures NoPair(r, IsInlineSpace, IsInlineSpace)
  {
    if text == [] then text
    else
      var t := Paragraphs(Prelude(text));
      RunLeavesNoPair(t, IsInlineSpace, " ");
      ReplaceGlobal(t, Run(IsInlineSpace, 2, " "))
  }

  // ---------------------------------------------------------------------------
  // What the rules guarantee

  /** The class holding the characters of `cs`. */
  function In(cs: set<char>): char -> bool {
    d => d in cs
  }

  /**
   * `([一-龥])c` → `$1r` leaves no ideograph before `c`, and keeps every earlier
   * "no ideograph before a character of `cs`" when `r` is not in `cs`.
   */
  lemma AfterClears(s: string, c: char, r: char, cs: set<char>)
    requires !IsHanBasic(c) && !IsHanBasic(r) && r !in cs && r != c
    requires NoPair(s, IsHanBasic, In(cs))
    ensures NoPair(ReplaceGlobal(s, After(c, r)), IsHanBasic, In(cs + {c}))
  {
    var m := After(c, r);
    var g := (t: string, k: nat) => k < |t| && t[k] in cs + {c};
    PairFree(s, m, IsHanBasic, In(cs + {c}), g, 0);
  }

  /** `c(?=[一-龥])` → `r` leaves no `c` before an ideograph. */
  lemma BeforeClears(s: string, c: char, r: char)
    requires !IsHanBasic(c) && !IsHanBasic(r) && r != c
    ensures NoPair(ReplaceGlobal(s, Before(c, r)), Is(c), IsHanBasic)
  {
    var m := Before(c, r);
    var g := (t: string, k: nat) => k < |t| && IsHanBasic(t[k]);
    PairFree(s, m, Is(c), IsHanBasic, g, 0);
  }

  /** The rules of step 1 that follow keep "no `p`-character before an ideograph". */
  lemma AfterKeeps(s: string, c: char, r: char, p: char -> bool)
    requires !IsHanBasic(r) && !p(r)
    requires NoPair(s, p, IsHanBasic)
    ensures NoPair(ReplaceGlobal(s, After(c, r)), p, IsHanBasic)
  {
    NoPairKept(s, After(c, r), p, IsHanBasic);
  }

  lemma StopsNoHanBefore(s: string)
    ensures NoPair(WidenedStops(s), IsHanBasic, In({',', '.'}))
  {
    var a := ReplaceGlobal(s, After(',', '，'));
    AfterClears(s, ',', '，', {});
    var b := ReplaceGlobal(a, After('.', '。'));
    AfterClears(a, '.', '。', {','});
    assert {','} + {'.'} == {',', '.'};
    var c := ReplaceGlobal(b, Before(',', '，'));
    NoPairKept(b, Before(',', '，'), IsHanBasic, In({',', '.'}));
    NoPairKept(c, Before('.', '。'), IsHanBasic, In({',', '.'}));
  }

  lemma OthersNoHanBefore(s: string)
    requires NoPair(s, IsHanBasic, In({',', '.'}))
    ensures NoPair(WidenedOthers(s), IsHanBasic, In({',', '.', ':', ';', '?', '!'}))
  {
    var a := ReplaceGlobal(s, After(':', '：'));
    AfterClears(s, ':', '：', {',', '.'});
    var b := ReplaceGlobal(a, After(';', '；'));
    AfterClears(a, ';', '；', {',', '.', ':'});
    var c := ReplaceGlobal(b, After('?', '？'));
    AfterClears(b, '?', '？', {',', '.', ':', ';'});
    AfterClears(c, '!', '！', {',', '.', ':', ';', '?'});
  }

  /** After step 1 no ideograph is directly followed by a half-width , . : ; ? ! */
  lemma WidenedNoHanBefore(s: string)
    ensures NoPair(Widened(s), IsHanBasic, IsHalfMark)
  {
    StopsNoHanBefore(s);
    OthersNoHanBefore(WidenedStops(s));
    NoPairNarrow(Widened(s), IsHanBasic, In({',', '.', ':', ';', '?', '!'}), IsHanBasic, IsHalfMark);
  }

  /** After step 1 no half-width , or . is directly followed by an ideograph. */
  lemma WidenedNoHanAfter(s: string)
    ensures NoPair(Widened(s), Is(','), IsHanBasic)
    ensures NoPair(Widened(s), Is('.'), IsHanBasic)
  {
    var a := ReplaceGlobal(s, After(',', '，'));
    var b := ReplaceGlobal(a, After('.', '。'));
    var c := ReplaceGlobal(b, Before(',', '，'));
    BeforeClears(b, ',', '，');
    var d := ReplaceGlobal(c, Before('.', '。'));
    NoPairKept(c, Before('.', '。'), Is(','), IsHanBasic);
    BeforeClears(c, '.', '。');
    OthersKeep(d, Is(','));
    OthersKeep(d, Is('.'));
  }

  lemma OthersKeep(s: string, p: char -> bool)
    requires !p('：') && !p('；') && !p('？') && !p('！')
    requires NoPair(s, p, IsHanBasic)
    ensures NoPair(WidenedOthers(s), p, IsHanBasic)
  {
    var a := ReplaceGlobal(s, After(':', '：'));
    var b := ReplaceGlobal(a, After(';', '；'));
    var c := ReplaceGlobal(b, After('?', '？'));
    AfterKeeps(s, ':', '：', p);
    AfterKeeps(a, ';', '；', p);
    AfterKeeps(b, '?', '？', p);
    AfterKeeps(c, '!', '！', p);
  }

  // ---------------------------------------------------------------------------
  // Text the rules leave alone

  /** Text none of steps 1 to 8 changes. */
  ghost predicate Tame(s: string) {
    (forall k :: 0 <= k < |s| ==> !IsHalfMark(s[k]) && s[k] != '"' && s[k] != '\'' && s[k] != '(')
    && NoPair(s, IsFullMark, IsFullMark)
    && NoPair(s, IsSpace, IsClosingMark) && NoPair(s, IsOpeningMark, IsSpace)
    && NoPair(s, IsSentenceMark, IsAsciiLetter)
  }

  /** A run rule for a full-width mark never matches where no two such marks touch. */
  lemma MarkRunIdle(s: string, c: char, min: nat, out: string)
    requires IsFullMark(c) && min >= 2
    requires NoPair(s, IsFullMark, IsFullMark)
    ensures ReplaceGlobal(s, Run(Is(c), min, out)) == s
  {
    forall j | 0 <= j <= |s| ensures !ValidHit(s, Run(Is(c), min, out), j) {
      if j < |s| && s[j] == c {
        assert RunEnd(s, j, Is(c)) < j + 2 by {
          if j + 1 < |s| {
            assert !(IsFullMark(s[j]) && IsFullMark(s[j + 1]));
          }
        }
      }
    }
    Idle(s, Run(Is(c), min, out));
  }

  /** A run rule for a character the text lacks never matches. */
  lemma LackingRunIdle(s: string, c: char, min: nat, out: string)
    requires forall k :: 0 <= k < |s| ==> s[k] != c
    ensures ReplaceGlobal(s, Run(Is(c), min, out)) == s
  {
    Idle(s, Run(Is(c), min, out));
  }

  lemma StopsIdle(s: string)
    requires forall k :: 0 <= k < |s| ==> !IsHalfMark(s[k])
    ensures WidenedStops(s) == s
  {
    Idle(s, After(',', '，'));
    Idle(s, After('.', '。'));
    Idle(s, Before(',', '，'));
    Idle(s, Before('.', '。'));
  }

  lemma OthersIdle(s: string)
    requires forall k :: 0 <= k < |s| ==> !IsHalfMark(s[k])
    ensures WidenedOthers(s) == s
  {
    Idle(s, After(':', '：'));
    Idle(s, After(';', '；'));
    Idle(s, After('?', '？'));
    Idle(s, After('!', '！'));
  }

  lemma WidenedIdle(s: string)
    requires forall k :: 0 <= k < |s| ==> !IsHalfMark(s[k])
    ensures Widened(s) == s
  {
    StopsIdle(s);
    OthersIdle(s);
  }

  lemma CollapsedHalfIdle(s: string)
    requires forall k :: 0 <= k < |s| ==> !IsHalfMark(s[k])
    ensures CollapsedHalf(s) == s
  {
    LackingRunIdle(s, ',', 2, "，");
    LackingRunIdle(s, '.', 2, "。");
    LackingRunIdle(s, '!', 2, "！");
    LackingRunIdle(s, '?', 2, "？");
  }

  lemma CollapsedIdle(s: string)
    requires forall k :: 0 <= k < |s| ==> !IsHalfMark(s[k])
    requires NoPair(s, IsFullMark, IsFullMark)
    ensures Collapsed(s) == s
  {
    MarkRunIdle(s, '，', 2, "，");
    MarkRunIdle(s, '。', 2, "。");
    MarkRunIdle(s, '！', 2, "！");
    MarkRunIdle(s, '？', 2, "？");
    MarkRunIdle(s, '；', 2, "；");
    MarkRunIdle(s, '：', 2, "：");
    MarkRunIdle(s, '、', 2, "、");
    CollapsedHalfIdle(s);
  }

  /** Steps 3 to 8 on tame text. */
  lemma LateIdle(s: string)
    requires Tame(s)
    ensures Ellipsis(Spaced(Tightened(Bracketed(s)))) == s
  {
    Idle(s, Wrapped('"', '"', '「', '」'));
    Idle(s, Wrapped('\'', '\'', '『', '』'));
    Idle(s, Wrapped('(', ')', '（', '）'));
    forall j | 0 <= j <= |s| ensures !ValidHit(s, SpaceBefore(IsClosingMark), j) {
      if j < |s| && IsSpace(s[j]) {
        var e := RunEnd(s, j, IsSpace);
        if e < |s| {
          assert IsSpace(s[e - 1]);
        }
      }
    }
    Idle(s, SpaceBefore(IsClosingMark));
    Idle(s, SpaceAfter(IsOpeningMark));
    Idle(s, MarkLetter());
    LackingRunIdle(s, '.', 3, "⋯⋯");
    MarkRunIdle(s, '。', 3, "⋯⋯");
  }

  lemma TameIdle(s: string)
    requires Tame(s)
    ensures Prelude(s) == s
  {
    WidenedIdle(s);
    CollapsedIdle(s);
    LateIdle(s);
  }

  /** Text without a blank line is one paragraph. */
  lemma SingleParagraph(t: string)
    requires forall k :: 0 <= k < |t| ==> t[k] != '\n'
    ensures Paragraphs(t) == Punctuate(t)
  {
    var parts := Split(t, Blank(), false);
    SplitSkip(t, Blank(), false, 0, 0, |t|);
    assert t[0..] == t;
    assert parts == [t];
    assert seq(|parts|, k requires 0 <= k < |parts| => Punctuate(parts[k])) == [Punctuate(t)];
  }

  /** Step 10, either version, leaves text without whitespace alone. */
  lemma SquashIdle(r: string)
    requires forall k :: 0 <= k < |r| ==> !IsSpace(r[k])
    ensures ReplaceGlobal(r, Run(IsSpace, 2, " ")) == r
    ensures ReplaceGlobal(r, Run(IsInlineSpace, 2, " ")) == r
  {
    Idle(r, Run(IsSpace, 2, " "));
    Idle(r, Run(IsInlineSpace, 2, " "));
  }

  /** A trimmed paragraph gets a full stop exactly when it ends in an ideograph. */
  lemma PunctuateTrimmed(t: string)
    requires IsTrimmed(t)
    ensures Punctuate(t) == if t != [] && IsHanBasic(t[|t| - 1]) then t + "。" else t
  {
    TrimOfTrimmed(t);
  }

  /** Text without whitespace keeps its shape through steps 9 and 10, but for the full stop. */
  lemma OneParagraph(t: string)
    requires forall k :: 0 <= k < |t| ==> !IsSpace(t[k])
    ensures Paragraphs(t) == Punctuate(t)
    ensures Punctuate(t) == if t != [] && IsHanBasic(t[|t| - 1]) then t + "。" else t
    ensures ReplaceGlobal(Punctuate(t), Run(IsSpace, 2, " ")) == Punctuate(t)
    ensures ReplaceGlobal(Punctuate(t), Run(IsInlineSpace, 2, " ")) == Punctuate(t)
  {
    SingleParagraph(t);
    PunctuatedNoSpace(t);
    SquashIdle(Punctuate(t));
  }

  /** Text without whitespace, with or without the full stop, still has none. */
  lemma PunctuatedNoSpace(t: string)
    requires forall k :: 0 <= k < |t| ==> !IsSpace(t[k])
    ensures Punctuate(t) == if t != [] && IsHanBasic(t[|t| - 1]) then t + "。" else t
    ensures forall k :: 0 <= k < |Punctuate(t)| ==> !IsSpace(Punctuate(t)[k])
  {
    assert IsTrimmed(t);
    PunctuateTrimmed(t);
    var r := Punctuate(t);
    forall k | 0 <= k < |r| ensures !IsSpace(r[k]) {
      if k < |t| {
        assert r[k] == t[k];
      }
    }
  }

  // ---------------------------------------------------------------------------
  // Worked examples

  lemma HanTame(w: string)
    requires AllHan(w)
    ensures Tame(w)
    ensures forall k :: 0 <= k < |w| ==> !IsSpace(w[k])
  {
  }

  /** When steps 1 to 8 leave text without whitespace, steps 9 and 10 only add the full stop. */
  lemma Unspaced(text: string, t: string)
    requires text != [] && Prelude(text) == t
    requires forall k :: 0 <= k < |t| ==> !IsSpace(t[k])
    ensures FixPunctuationCorrected(text) == Punctuate(t)
    ensures FixPunctuationAsWritten(text) == Punctuate(t)
  {
    OneParagraph(t);
  }

  /** A run of ideographs comes back with a full stop appended. */
  lemma AutoPeriod(w: string)
    requires w != [] && AllHan(w)
    ensures FixPunctuationCorrected(w) == w + "。"
    ensures FixPunctuationAsWritten(w) == w + "。"
  {
    HanTame(w);
    TameIdle(w);
    Unspaced(w, w);
    PunctuateTrimmed(w);
  }

  /** "這是一個測試" becomes "這是一個測試。". */
  lemma AutoPeriodTest()
    ensures FixPunctuationCorrected("這是一個測試") == "這是一個測試。"
    ensures FixPunctuationAsWritten("這是一個測試") == "這是一個測試。"
  {
    AutoPeriodText();
    AutoPeriod("這是一個測試");
  }

  lemma AutoPeriodText()
    ensures AllHan("這是一個測試")
    ensures "這是一個測試" + "。" == "這是一個測試。"
  {
  }

  /** Ideographs followed by `n` copies of a mark that is not whitespace. */
  lemma MarkedText(w: string, c: char, n: nat)
    requires AllHan(w) && !IsHanBasic(c) && !IsSpace(c)
    ensures var s := w + seq(n, _ => c);
      forall k :: 0 <= k < |s| ==> (IsHanBasic(s[k]) || s[k] == c) && (k < |w| <==> IsHanBasic(s[k]))
  {
  }

  lemma QuestionHit(w: string)
    requires AllHan(w)
    ensures ReplaceGlobal(w + "？？？", Run(Is('？'), 2, "？")) == w + "？"
  {
    var s := w + "？？？";
    assert "？？？" == seq(3, _ => '？');
    MarkedText(w, '？', 3);
    RunEndAt(s, |w|, |s|, Is('？'));
    OneHit(s, Run(Is('？'), 2, "？"), |w|);
    assert s[..|w|] == w && s[|s|..] == [];
  }

  /** Step 2 on ideographs followed by ？？？ leaves one ？. */
  lemma QuestionRun(w: string)
    requires AllHan(w)
    ensures Collapsed(w + "？？？") == w + "？"
  {
    var s := w + "？？？";
    assert "？？？" == seq(3, _ => '？');
    MarkedText(w, '？', 3);
    LackingRunIdle(s, '，', 2, "，");
    LackingRunIdle(s, '。', 2, "。");
    LackingRunIdle(s, '！', 2, "！");
    QuestionHit(w);
    var t := w + "？";
    assert "？" == seq(1, _ => '？');
    MarkedText(w, '？', 1);
    LackingRunIdle(t, '；', 2, "；");
    LackingRunIdle(t, '：', 2, "：");
    LackingRunIdle(t, '、', 2, "、");
    CollapsedHalfIdle(t);
  }

  /** Ideographs followed by one full-width mark are tame and hold no whitespace. */
  lemma HanThenMark(w: string, c: char)
    requires AllHan(w) && IsFullMark(c)
    ensures Tame(w + [c])
    ensures forall k :: 0 <= k < |w + [c]| ==> !IsSpace((w + [c])[k])
  {
    assert [c] == seq(1, _ => c);
    MarkedText(w, c, 1);
  }

  lemma QuestionsPrelude(w: string)
    requires AllHan(w)
    ensures Prelude(w + "？？？") == w + "？"
  {
    var s := w + "？？？";
    assert "？？？" == seq(3, _ => '？');
    MarkedText(w, '？', 3);
    WidenedIdle(s);
    QuestionRun(w);
    HanThenMark(w, '？');
    LateIdle(w + "？");
  }

  /** Ideographs followed by ？？？ come back with a single ？. */
  lemma RepeatedMarks(w: string)
    requires w != [] && AllHan(w)
    ensures FixPunctuationCorrected(w + "？？？") == w + "？"
    ensures FixPunctuationAsWritten(w + "？？？") == w + "？"
  {
    QuestionsPrelude(w);
    HanThenMark(w, '？');
    Unspaced(w + "？？？", w + "？");
    PunctuateTrimmed(w + "？");
  }

  /** "真的嗎？？？" becomes "真的嗎？". */
  lemma RepeatedMarksTest()
    ensures FixPunctuationCorrected("真的嗎？？？") == "真的嗎？"
    ensures FixPunctuationAsWritten("真的嗎？？？") == "真的嗎？"
  {
    RepeatedMarksText();
    RepeatedMarks("真的嗎");
  }

  lemma RepeatedMarksText()
    ensures AllHan("真的嗎")
    ensures "真的嗎" + "？？？" == "真的嗎？？？" && "真的嗎" + "？" == "真的嗎？"
  {
  }

  /** Two runs of ideographs, the first followed by `c` and the second by `d`. */
  lemma PairText(a: string, b: string, c: char, d: char)
    requires AllHan(a) && AllHan(b) && !IsHanBasic(c) && !IsHanBasic(d)
    ensures var s := a + [c] + b + [d];
      s[|a|] == c && s[|s| - 1] == d
      && forall k :: 0 <= k < |s| ==> (IsHanBasic(s[k]) <==> k != |a| && k != |s| - 1)
  {
    var s := a + [c] + b + [d];
    forall k | 0 <= k < |s| ensures IsHanBasic(s[k]) <==> k != |a| && k != |s| - 1 {
      if k < |a| {
        assert s[k] == a[k];
      } else if |a| < k < |s| - 1 {
        assert s[k] == b[k - |a| - 1];
      }
    }
  }

  /** The same text closed by two full-width marks is tame and holds no whitespace. */
  lemma PairTame(a: string, b: string, c: char, d: char)
    requires AllHan(a) && AllHan(b) && b != [] && IsFullMark(c) && IsFullMark(d)
    ensures Tame(a + [c] + b + [d])
    ensures forall k :: 0 <= k < |a + [c] + b + [d]| ==> !IsSpace((a + [c] + b + [d])[k])
  {
    var s := a + [c] + b + [d];
    PairText(a, b, c, d);
    forall k | 0 <= k < |s| ensures !IsSpace(s[k]) && !IsHalfMark(s[k]) && !IsAsciiLetter(s[k])
      && s[k] != '"' && s[k] != '\'' && s[k] != '(' && !IsOpeningMark(s[k])
    {
    }
    forall k | 0 <= k < |s| - 1 ensures !(IsFullMark(s[k]) && IsFullMark(s[k + 1])) {
      assert IsHanBasic(s[k]) || IsHanBasic(s[k + 1]);
    }
  }

  lemma CommaHit(a: string, b: string)
    requires a != [] && AllHan(a) && AllHan(b)
    ensures ReplaceGlobal(a + "," + b + ".", After(',', '，')) == a + "，" + b + "."
  {
    var s := a + "," + b + ".";
    PairText(a, b, ',', '.');
    OneHit(s, After(',', '，'), |a| - 1);
    assert s[..|a| - 1] + [s[|a| - 1], '，'] + s[|a| + 1..] == a + "，" + b + ".";
  }

  lemma StopHit(a: string, b: string)
    requires b != [] && AllHan(a) && AllHan(b)
    ensures ReplaceGlobal(a + "，" + b + ".", After('.', '。')) == a + "，" + b + "。"
  {
    var s := a + "，" + b + ".";
    PairText(a, b, '，', '.');
    OneHit(s, After('.', '。'), |a| + |b|);
    assert s[..|a| + |b|] + [s[|a| + |b|], '。'] == a + "，" + b + "。";
  }

  lemma HalfToFullPrelude(a: string, b: string)
    requires a != [] && b != [] && AllHan(a) && AllHan(b)
    ensures Prelude(a + "," + b + ".") == a + "，" + b + "。"
  {
    var t := a + "，" + b + "。";
    CommaHit(a, b);
    StopHit(a, b);
    PairText(a, b, '，', '。');
    Idle(t, Before(',', '，'));
    Idle(t, Before('.', '。'));
    OthersIdle(t);
    PairTame(a, b, '，', '。');
    CollapsedIdle(t);
    LateIdle(t);
  }

  /** Half-width , and . after ideographs become ，and 。. */
  lemma HalfToFull(a: string, b: string)
    requires a != [] && b != [] && AllHan(a) && AllHan(b)
    ensures FixPunctuationCorrected(a + "," + b + ".") == a + "，" + b + "。"
    ensures FixPunctuationAsWritten(a + "," + b + ".") == a + "，" + b + "。"
  {
    var t := a + "，" + b + "。";
    HalfToFullPrelude(a, b);
    PairTame(a, b, '，', '。');
    Unspaced(a + "," + b + ".", t);
    PunctuateTrimmed(t);
  }

  /** "你好,世界." becomes "你好，世界。". */
  lemma HalfToFullTest()
    ensures FixPunctuationCorrected("你好,世界.") == "你好，世界。"
    ensures FixPunctuationAsWritten("你好,世界.") == "你好，世界。"
  {
    HalfToFullText();
    HalfToFull("你好", "世界");
  }

  lemma HalfToFullText()
    ensures AllHan("你好") && AllHan("世界")
    ensures "你好" + "," + "世界" + "." == "你好,世界." && "你好" + "，" + "世界" + "。" == "你好，世界。"
  {
  }

  // ---------------------------------------------------------------------------
  // Paragraphs through step 10

  /** Two runs of ideographs separated by a blank line. */
  lemma BlankText(a: string, b: string)
    requires AllHan(a) && AllHan(b)
    ensures var s := a + "\n\n" + b;
      forall k :: 0 <= k < |s| ==>
        (IsHanBasic(s[k]) <==> k != |a| && k != |a| + 1) && (s[k] == '\n' <==> k == |a| || k == |a| + 1)
  {
    var s := a + "\n\n" + b;
    forall k | 0 <= k < |s|
      ensures (IsHanBasic(s[k]) <==> k != |a| && k != |a| + 1) && (s[k] == '\n' <==> k == |a| || k == |a| + 1)
    {
      if k < |a| {
        assert s[k] == a[k];
      } else if k >= |a| + 2 {
        assert s[k] == b[k - |a| - 2];
      }
    }
  }

  lemma BlankTame(a: string, b: string)
    requires AllHan(a) && AllHan(b)
    ensures Tame(a + "\n\n" + b)
  {
    var s := a + "\n\n" + b;
    BlankText(a, b);
    forall k | 0 <= k < |s| ensures !IsFullMark(s[k]) && !IsOpeningMark(s[k]) && !IsHalfMark(s[k])
      && s[k] != '"' && s[k] != '\'' && s[k] != '('
    {
    }
  }

  /** Splitting on blank lines finds the two paragraphs. */
  lemma SplitTwo(a: string, b: string)
    requires a != [] && b != [] && AllHan(a) && AllHan(b)
    ensures Split(a + "\n\n" + b, Blank(), false) == [a, b]
  {
    var s := a + "\n\n" + b;
    var m := Blank();
    BlankText(a, b);
    SplitSkip(s, m, false, 0, 0, |a|);
    RunEndAt(s, |a|, |a| + 2, Is('\n'));
    SplitSkip(s, m, false, |a| + 2, |a| + 2, |s|);
    assert s[0..|a|] == a && s[|a| + 2..] == b;
  }

  lemma JoinTwo(x: string, y: string, sep: string)
    ensures Join([x, y], sep) == x + sep + y
  {
    assert [x, y][1..] == [y];
  }

  lemma ParagraphsOfTwo(a: string, b: string)
    requires a != [] && b != [] && AllHan(a) && AllHan(b)
    ensures Paragraphs(a + "\n\n" + b) == a + "。" + "\n\n" + b + "。"
  {
    SplitTwo(a, b);
    ParagraphsOf(a + "\n\n" + b, a, b);
    HanPunctuated(a);
    HanPunctuated(b);
  }

  /** A paragraph of ideographs gets its full stop. */
  lemma HanPunctuated(t: string)
    requires t != [] && AllHan(t)
    ensures Punctuate(t) == t + "。"
  {
    assert IsHanBasic(t[0]) && IsHanBasic(t[|t| - 1]);
    PunctuateTrimmed(t);
  }

  lemma ParagraphsOf(s: string, x: string, y: string)
    requires Split(s, Blank(), false) == [x, y]
    ensures Paragraphs(s) == Punctuate(x) + "\n\n" + Punctuate(y)
  {
    PunctuateEach(x, y);
    JoinTwo(Punctuate(x), Punctuate(y), "\n\n");
  }

  lemma PunctuateEach(x: string, y: string)
    ensures var parts := [x, y];
      seq(|parts|, k requires 0 <= k < |parts| => Punctuate(parts[k])) == [Punctuate(x), Punctuate(y)]
  {
    var parts := [x, y];
    var r := seq(|parts|, k requires 0 <= k < |parts| => Punctuate(parts[k]));
    assert r[0] == Punctuate(x);
    assert r[1] == Punctuate(y);
  }

  lemma StoppedShape(a: string, b: string)
    ensures var t := a + "。" + "\n\n" + b + "。";
      t[..|a| + 1] + " " + t[|a| + 3..] == a + "。 " + b + "。" && t == a + "。\n\n" + b + "。"
  {
    var t := a + "。" + "\n\n" + b + "。";
    assert t[..|a| + 1] == a + "。";
    assert t[|a| + 3..] == b + "。";
  }

  /** Steps 1 to 9 on two paragraphs of ideographs: each gets its full stop. */
  lemma TwoParagraphs(a: string, b: string)
    requires a != [] && b != [] && AllHan(a) && AllHan(b)
    ensures Paragraphs(Prelude(a + "\n\n" + b)) == a + "。" + "\n\n" + b + "。"
  {
    BlankTame(a, b);
    TameIdle(a + "\n\n" + b);
    ParagraphsOfTwo(a, b);
  }

  /** Step 10 of either version is all that follows step 9. */
  lemma LastStep(text: string, t: string)
    requires text != [] && Paragraphs(Prelude(text)) == t
    ensures FixPunctuationAsWritten(text) == ReplaceGlobal(t, Run(IsSpace, 2, " "))
    ensures FixPunctuationCorrected(text) == ReplaceGlobal(t, Run(IsInlineSpace, 2, " "))
  {
  }

  /** Ideographs, a full stop, a blank line, ideographs and a full stop. */
  lemma StoppedText(a: string, b: string)
    requires AllHan(a) && AllHan(b)
    ensures var t := a + "。" + "\n\n" + b + "。";
      forall k :: 0 <= k < |t| ==> (IsSpace(t[k]) <==> k == |a| + 1 || k == |a| + 2) && !IsInlineSpace(t[k])
  {
    var t := a + "。" + "\n\n" + b + "。";
    forall k | 0 <= k < |t| ensures (IsSpace(t[k]) <==> k == |a| + 1 || k == |a| + 2) && !IsInlineSpace(t[k]) {
      if k < |a| {
        assert t[k] == a[k];
      } else if |a| + 3 <= k < |t| - 1 {
        assert t[k] == b[k - |a| - 3];
      }
    }
  }

  lemma BlankToSpace(a: string, b: string)
    requires AllHan(a) && AllHan(b)
    ensures ReplaceGlobal(a + "。" + "\n\n" + b + "。", Run(IsSpace, 2, " ")) == a + "。 " + b + "。"
  {
    var t := a + "。" + "\n\n" + b + "。";
    StoppedText(a, b);
    RunEndAt(t, |a| + 1, |a| + 3, IsSpace);
    OneHit(t, Run(IsSpace, 2, " "), |a| + 1);
    StoppedShape(a, b);
  }

  /** As written, step 10 turns the blank line between the paragraphs into one space. */
  lemma AsWrittenJoinsParagraphs(a: string, b: string)
    requires a != [] && b != [] && AllHan(a) && AllHan(b)
    ensures FixPunctuationAsWritten(a + "\n\n" + b) == a + "。 " + b + "。"
  {
    var t := a + "。" + "\n\n" + b + "。";
    TwoParagraphs(a, b);
    LastStep(a + "\n\n" + b, t);
    BlankToSpace(a, b);
  }

  /** Collapsing in-line whitespace only, the two paragraphs stay apart. */
  lemma KeepsParagraphs(a: string, b: string)
    requires a != [] && b != [] && AllHan(a) && AllHan(b)
    ensures FixPunctuationCorrected(a + "\n\n" + b) == a + "。\n\n" + b + "。"
  {
    var t := a + "。" + "\n\n" + b + "。";
    TwoParagraphs(a, b);
    LastStep(a + "\n\n" + b, t);
    BlankStays(a, b);
  }

  lemma BlankStays(a: string, b: string)
    requires AllHan(a) && AllHan(b)
    ensures ReplaceGlobal(a + "。" + "\n\n" + b + "。", Run(IsInlineSpace, 2, " ")) == a + "。\n\n" + b + "。"
  {
    var t := a + "。" + "\n\n" + b + "。";
    StoppedText(a, b);
    Idle(t, Run(IsInlineSpace, 2, " "));
    StoppedShape(a, b);
  }

  /** "甲\n\n乙" becomes "甲。 乙。" as written, and "甲。\n\n乙。" with the corrected step 10. */
  lemma ParagraphsTest()
    ensures FixPunctuationAsWritten("甲\n\n乙") == "甲。 乙。"
    ensures FixPunctuationCorrected("甲\n\n乙") == "甲。\n\n乙。"
  {
    ParagraphsText();
    AsWrittenJoinsParagraphs("甲", "乙");
    KeepsParagraphs("甲", "乙");
  }

  lemma ParagraphsText()
    ensures AllHan("甲") && AllHan("乙") && "甲" + "\n\n" + "乙" == "甲\n\n乙"
    ensures "甲" + "。 " + "乙" + "。" == "甲。 乙。" && "甲" + "。\n\n" + "乙" + "。" == "甲。\n\n乙。"
  {
  }

  // ---------------------------------------------------------------------------
  // Steps 3 to 8

  /**
   * Steps 3 and 4: text that starts and ends with an ideograph and holds no `close`,
   * between `open` and `close`, gets the full-width pair instead.
   */
  lemma WrappedText(a: string, w: string, b: string, open: char, close: char, left: char, right: char)
    requires forall k :: 0 <= k < |a| ==> a[k] != open
    requires forall k :: 0 <= k < |b| ==> b[k] != open
    requires forall k :: 0 <= k < |w| ==> w[k] != close
    requires |w| >= 2 && IsHanBasic(w[0]) && IsHanBasic(w[|w| - 1])
    ensures ReplaceGlobal(a + [open] + w + [close] + b, Wrapped(open, close, left, right))
            == a + [left] + w + [right] + b
  {
    var s := a + [open] + w + [close] + b;
    var m := Wrapped(open, close, left, right);
    var q := |a| + 1 + |w|;
    WrappedAt(a, w, b, open, close, left, right);
    forall k | 0 <= k < |a| ensures !ValidHit(s, m, k) {
      assert s[k] == a[k];
    }
    forall k | q + 1 <= k <= |s| ensures !ValidHit(s, m, k) {
      if k < |s| {
        assert s[k] == b[k - q - 1];
      }
    }
    OneHit(s, m, |a|);
    assert s[..|a|] == a && s[q + 1..] == b;
  }

  /** The rule matches at the opening character and takes the whole bracketed text. */
  lemma WrappedAt(a: string, w: string, b: string, open: char, close: char, left: char, right: char)
    requires forall k :: 0 <= k < |w| ==> w[k] != close
    requires |w| >= 2 && IsHanBasic(w[0]) && IsHanBasic(w[|w| - 1])
    ensures var s := a + [open] + w + [close] + b;
      ValidHit(s, Wrapped(open, close, left, right), |a|)
      && Wrapped(open, close, left, right)(s, |a|).value == Hit(|w| + 2, [left] + w + [right])
  {
    var s := a + [open] + w + [close] + b;
    var q := |a| + 1 + |w|;
    assert s[|a| + 1..q] == w;
    forall k | |a| + 2 <= k < q ensures Other(close)(s[k]) {
      assert s[k] == w[k - |a| - 1];
    }
    RunEndAt(s, |a| + 2, q, Other(close));
  }

  /** Step 7 leaves no ，。！？；： directly before a Latin letter. */
  lemma SpacedSeparates(s: string)
    ensures NoPair(Spaced(s), IsSentenceMark, IsAsciiLetter)
  {
    var g := (t: string, k: nat) => k < |t| && IsAsciiLetter(t[k]);
    PairFree(s, MarkLetter(), IsSentenceMark, IsAsciiLetter, g, 0);
  }

  lemma MarkLetterHit(s: string, j: nat)
    requires ValidHit(s, MarkLetter(), j)
    ensures RemovesOnly(s, MarkLetter(), Is(' '), j)
  {
    var x, y := s[j], s[j + 1];
    assert [x, ' ', y][1..] == [' ', y];
    assert [' ', y][1..] == [y];
    assert s[j..j + 2] == [x, y];
    assert [x, y][1..] == [y];
  }

  /** Step 7 inserts spaces and nothing else: with spaces taken out, the text is what it was. */
  lemma SpacedOnlySpaces(s: string)
    ensures Remove(Spaced(s), Is(' ')) == Remove(s, Is(' '))
  {
    forall j | 0 <= j <= |s| ensures RemovesOnly(s, MarkLetter(), Is(' '), j) {
      if ValidHit(s, MarkLetter(), j) {
        MarkLetterHit(s, j);
      }
    }
    OnlyRemoves(s, MarkLetter(), Is(' '), 0);
    assert s[0..] == s;
  }

  // ---------------------------------------------------------------------------
  // Why `\.{3,}` never matches

  /** Steps 3 and 4 keep "no two `p`-characters touch" when neither new bracket is one. */
  lemma WrappedKeeps(s: string, open: char, close: char, left: char, right: char, p: char -> bool)
    requires NoPair(s, p, p) && !p(left) && !p(right)
    ensures NoPair(ReplaceGlobal(s, Wrapped(open, close, left, right)), p, p)
  {
    var m := Wrapped(open, close, left, right);
    forall j | 0 <= j <= |s| && ValidHit(s, m, j)
      ensures var h := m(s, j).value;
        h.len > 0 && h.out != [] && NoPair(h.out, p, p) && (p(h.out[0]) ==> p(s[j])) && !p(h.out[|h.out| - 1])
    {
      WrappedHit(s, j, open, close, left, right, p);
    }
    NoPairKept(s, m, p, p);
  }

  /** One bracket rewrite copies the inside unchanged between two brackets that are not `p`. */
  lemma WrappedHit(s: string, j: nat, open: char, close: char, left: char, right: char, p: char -> bool)
    requires NoPair(s, p, p) && !p(left) && !p(right)
    requires ValidHit(s, Wrapped(open, close, left, right), j)
    ensures var h := Wrapped(open, close, left, right)(s, j).value;
      h.len > 0 && h.out != [] && NoPair(h.out, p, p) && (p(h.out[0]) ==> p(s[j])) && !p(h.out[|h.out| - 1])
  {
    var q := RunEnd(s, j + 2, Other(close));
    var out := [left] + s[j + 1..q] + [right];
    forall k | 0 <= k < |out| - 1 ensures !(p(out[k]) && p(out[k + 1])) {
      if 0 < k && k + 1 < |out| - 1 {
        assert out[k] == s[j + k] && out[k + 1] == s[j + k + 1];
      }
    }
  }

  lemma BracketedKeeps(s: string, p: char -> bool)
    requires NoPair(s, p, p) && !p('「') && !p('」') && !p('『') && !p('』') && !p('（') && !p('）')
    ensures NoPair(Bracketed(s), p, p)
  {
    var a := ReplaceGlobal(s, Wrapped('"', '"', '「', '」'));
    WrappedKeeps(s, '"', '"', '「', '」', p);
    var b := ReplaceGlobal(a, Wrapped('\'', '\'', '『', '』'));
    WrappedKeeps(a, '\'', '\'', '『', '』', p);
    WrappedKeeps(b, '(', ')', '（', '）', p);
  }

  /** Steps 5 to 7 only drop whitespace next to marks and put spaces after marks. */
  lemma LateKeeps(s: string, d: char)
    requires NoPair(s, Is(d), Is(d))
    requires !IsClosingMark(d) && !IsOpeningMark(d) && !IsSentenceMark(d) && !IsAsciiLetter(d) && d != ' '
    ensures NoPair(Spaced(Tightened(s)), Is(d), Is(d))
  {
    var p := Is(d);
    var a := ReplaceGlobal(s, SpaceBefore(IsClosingMark));
    NoPairKept(s, SpaceBefore(IsClosingMark), p, p);
    var b := ReplaceGlobal(a, SpaceAfter(IsOpeningMark));
    forall j | 0 <= j <= |a| && ValidHit(a, SpaceAfter(IsOpeningMark), j)
      ensures SpaceAfter(IsOpeningMark)(a, j).value == Hit(RunEnd(a, j + 1, IsSpace) - j, [a[j]])
    {
    }
    NoPairKept(a, SpaceAfter(IsOpeningMark), p, p);
    NoPairKept(b, MarkLetter(), p, p);
  }

  /** After step 2 no two half-width full stops touch. */
  lemma CollapsedNoDots(s: string)
    ensures NoPair(Collapsed(s), Is('.'), Is('.'))
  {
    var h := CollapsedFull(s);
    var a := ReplaceGlobal(h, Run(Is(','), 2, "，"));
    RunLeavesNoPair(a, Is('.'), "。");
    var b := ReplaceGlobal(a, Run(Is('.'), 2, "。"));
    OtherRunKeeps(b, '!', '！', '.');
    OtherRunKeeps(ReplaceGlobal(b, Run(Is('!'), 2, "！")), '?', '？', '.');
  }

  /** Squeezing a run of some other character into one mark keeps d from touching d. */
  lemma OtherRunKeeps(s: string, c: char, o: char, d: char)
    requires NoPair(s, Is(d), Is(d)) && c != d && o != d
    ensures NoPair(ReplaceGlobal(s, Run(Is(c), 2, [o])), Is(d), Is(d))
  {
    NoPairKept(s, Run(Is(c), 2, [o]), Is(d), Is(d));
  }

  /**
   * Step 2 turns every run of two or more half-width full stops into 。, and the steps up
   * to the ellipsis rule never put two of them side by side again, so `\.{3,}` never matches.
   */
  lemma DotsNeverEllipsis(s: string)
    ensures var t := Spaced(Tightened(Bracketed(Collapsed(Widened(s)))));
      ReplaceGlobal(t, Run(Is('.'), 3, "⋯⋯")) == t
  {
    var b := BracketedNoDots(s);
    LateDotsIdle(b);
  }

  /** Steps 5 and 6 on a text without touching dots leave the dot ellipsis rule idle. */
  lemma LateDotsIdle(b: string)
    requires NoPair(b, Is('.'), Is('.'))
    ensures var t := Spaced(Tightened(b));
      ReplaceGlobal(t, Run(Is('.'), 3, "⋯⋯")) == t
  {
    LateKeeps(b, '.');
    DotsIdle(Spaced(Tightened(b)));
  }

  lemma BracketedNoDots(s: string) returns (b: string)
    ensures b == Bracketed(Collapsed(Widened(s)))
    ensures NoPair(b, Is('.'), Is('.'))
  {
    var u := Collapsed(Widened(s));
    CollapsedNoDots(Widened(s));
    BracketedKeeps(u, Is('.'));
    b := Bracketed(u);
  }

  lemma DotsIdle(t: string)
    requires NoPair(t, Is('.'), Is('.'))
    ensures ReplaceGlobal(t, Run(Is('.'), 3, "⋯⋯")) == t
  {
    forall j | 0 <= j <= |t| ensures !ValidHit(t, Run(Is('.'), 3, "⋯⋯"), j) {
      if j < |t| && t[j] == '.' {
        assert RunEnd(t, j, Is('.')) < j + 2 by {
          if j + 1 < |t| {
            assert !(Is('.')(t[j]) && Is('.')(t[j + 1]));
          }
        }
      }
    }
    Idle(t, Run(Is('.'), 3, "⋯⋯"));
  }
}
