/**
 * Paragraph segmentation: single line breaks inside a paragraph are merged into spaces,
 * paragraphs are separated by exactly one blank line, dialogue can be put on lines of its
 * own, and over-long paragraphs are cut after sentence-ending marks.
 */
module SegmentParagraphs {
  import opened Wrappers
  import opened Chars
  import opened Rewrite

  // ---------------------------------------------------------------------------
  // Options

  /** The caller's options; every field may be missing. */
  datatype SegmentOptions = SegmentOptions(
    maxParagraphLength: Option<int>,
    minParagraphLength: Option<int>,
    dialogueNewLine: Option<bool>)

  /** The options once the defaults are filled in. */
  datatype Settings = Settings(maxParagraphLength: int, minParagraphLength: int, dialogueNewLine: bool)

  const DEFAULT_OPTIONS: Settings := Settings(1000, 50, false)

  const NO_OPTIONS: SegmentOptions := SegmentOptions(None, None, None)

  /** `{ ...DEFAULT_OPTIONS, ...options }`. */
  function Resolve(options: SegmentOptions): Settings {
    Settings(
      options.maxParagraphLength.GetOr(DEFAULT_OPTIONS.maxParagraphLength),
      options.minParagraphLength.GetOr(DEFAULT_OPTIONS.minParagraphLength),
      options.dialogueNewLine.GetOr(DEFAULT_OPTIONS.dialogueNewLine))
  }

  /** Appends the trimmed text to the list unless it is blank. */
  function Push(list: seq<string>, s: string): seq<string> {
    if Trim(s) != [] then list + [Trim(s)] else list
  }

  // ---------------------------------------------------------------------------
  // Dialogue

  /** `[「『"]`: a character that opens a piece of dialogue. */
  predicate IsDialogueMark(c: char) {
    c == '「' || c == '『' || c == '"'
  }

  /** `/[「『"]/.test(para)`. */
  predicate HasDialogue(para: string) {
    exists k :: 0 <= k < |para| && IsDialogueMark(para[k])
  }

  /** The character that closes the dialogue `open` starts. */
  function Partner(open: char): char {
    if open == '「' then '」' else if open == '『' then '』' else open
  }

  /** `c` closes the dialogue that `dialogueChar` opened. */
  predicate Closes(dialogueChar: Option<char>, c: char) {
    (c == '」' && dialogueChar == Some('「'))
    || (c == '』' && dialogueChar == Some('『'))
    || (c == '"' && dialogueChar == Some('"'))
  }

  /** The variables of the dialogue loop; `inDialogue` is written but never read, so it is not kept. */
  datatype Scan = Scan(parts: seq<string>, current: string, dialogueChar: Option<char>)

  const START: Scan := Scan([], [], None)

  /** Ending the current dialogue with `c`. */
  function Close(st: Scan, c: char): Scan {
    Scan(st.parts + [Trim(st.current + [c])], [], None)
  }

  /**
   * One turn of the loop as written: an opening mark is tested first, so a `"` always
   * opens dialogue and never closes it.
   */
  function StepAsWritten(st: Scan, c: char): Scan {
    if IsDialogueMark(c) then Scan(Push(st.parts, st.current), [c], Some(c))
    else if Closes(st.dialogueChar, c) then Close(st, c)
    else Scan(st.parts, st.current + [c], st.dialogueChar)
  }

  /** One turn of the loop with the closing test first, so a second `"` closes the first. */
  function Step(st: Scan, c: char): Scan {
    if Closes(st.dialogueChar, c) then Close(st, c) else StepAsWritten(st, c)
  }

  /** One turn of the loop, in the fixed or the as-written version. */
  function Next(st: Scan, c: char, fixed: bool): Scan {
    if fixed then Step(st, c) else StepAsWritten(st, c)
  }

  /** The loop over the characters of `s`, from state `st`. */
  function Scanned(st: Scan, s: string, fixed: bool): Scan
    decreases |s|
  {
    if s == [] then st
    else Scanned(Next(st, s[0], fixed), s[1..], fixed)
  }

  /** The parts the dialogue loop produces, in the fixed or the as-written version. */
  function DialoguePartsOf(para: string, fixed: bool): seq<string> {
    var st := Scanned(START, para, fixed);
    Push(st.parts, st.current)
  }

  /** The parts the dialogue loop at lib/processors/segmentParagraphs.ts:50-77 produces, as written. */
  function DialoguePartsAsWritten(para: string): seq<string> {
    DialoguePartsOf(para, false)
  }

  /** The parts with a second `"` closing the dialogue it opened. */
  function DialogueParts(para: string): seq<string> {
    DialoguePartsOf(para, true)
  }

  /**
   * The dialogue loop: each piece of dialogue and each stretch between them becomes a trimmed
   * part. With `fixed` off the opening test comes first, as written; with it on the closing
   * test comes first.
   */
  method SplitDialogue(para: string, fixed: bool) returns (parts: seq<string>)
    ensures parts == DialoguePartsOf(para, fixed)
  {
    parts := [];
    var currentPart := "";
    var dialogueChar: Option<char> := None;
    var i := 0;
    while i < |para|
      invariant 0 <= i <= |para|
      invariant Scanned(Scan(parts, currentPart, dialogueChar), para[i..], fixed) == Scanned(START, para, fixed)
    {
      var c := para[i];
      assert para[i..][1..] == para[i + 1..];
      if fixed && Closes(dialogueChar, c) {
        currentPart := currentPart + [c];
        parts := parts + [Trim(currentPart)];
        currentPart := "";
        dialogueChar := None;
      } else if IsDialogueMark(c) {
        if Trim(currentPart) != [] {
          parts := parts + [Trim(currentPart)];
        }
        currentPart := [c];
        dialogueChar := Some(c);
      } else if Closes(dialogueChar, c) {
        currentPart := currentPart + [c];
        parts := parts + [Trim(currentPart)];
        currentPart := "";
        dialogueChar := None;
      } else {
        currentPart := currentPart + [c];
      }
      i := i + 1;
    }
    if Trim(currentPart) != [] {
      parts := parts + [Trim(currentPart)];
    }
  }

  // ---------------------------------------------------------------------------
  // Long paragraphs

  /** `[。！？]`. */
  predicate IsEnder(c: char) {
    c == '。' || c == '！' || c == '？'
  }

  /** `/([。！？])/g` as a splitter: each mark is a separator that `split` keeps. */
  function Enders(): Matcher {
    (s: string, i: nat) => if i < |s| && IsEnder(s[i]) then Some(Hit(1, [s[i]])) else None
  }

  /** The first index from `from` on holding a sentence-ending mark. */
  function FirstEnder(s: string, from: nat): (k: Option<nat>)
    requires from <= |s|
    ensures k.Some? ==> from <= k.value < |s| && IsEnder(s[k.value])
    ensures k.Some? ==> forall j :: from <= j < k.value ==> !IsEnder(s[j])
    ensures k.None? ==> forall j :: from <= j < |s| ==> !IsEnder(s[j])
    decreases |s| - from
  {
    if from == |s| then None
    else if IsEnder(s[from]) then Some(from)
    else FirstEnder(s, from + 1)
  }

  /**
   * `sentenceEnders.test(part)` on a global regular expression: the search starts at
   * `lastIndex`, and the result carries the next `lastIndex` (the end of the match, or 0).
   */
  function Test(part: string, lastIndex: nat): (bool, nat) {
    if lastIndex > |part| then (false, 0)
    else match FirstEnder(part, lastIndex)
      case Some(k) => (true, k + 1)
      case None => (false, 0)
  }

  /** The variables of the loop in `splitLongParagraph`, with the regular expression's `lastIndex`. */
  datatype Chunking = Chunking(sentences: seq<string>, current: string, lastIndex: nat)

  /** One turn of that loop. */
  function Feed(st: Chunking, part: string, maxLength: int): Chunking {
    var (isMark, next) := Test(part, st.lastIndex);
    var current := st.current + part;
    if isMark && |current| >= maxLength then Chunking(Push(st.sentences, current), [], next)
    else Chunking(st.sentences, current, next)
  }

  function FeedAll(st: Chunking, parts: seq<string>, maxLength: int): Chunking
    decreases |parts|
  {
    if parts == [] then st else FeedAll(Feed(st, parts[0], maxLength), parts[1..], maxLength)
  }

  /** The pieces `splitLongParagraph` cuts `text` into. */
  function Sentences(text: string, maxLength: int): seq<string> {
    var st := FeedAll(Chunking([], [], 0), Split(text, Enders(), true), maxLength);
    Push(st.sentences, st.current)
  }

  /** `splitLongParagraph`: the pieces joined by blank lines, or the text itself if there is at most one. */
  function SplitLong(text: string, maxLength: int): string {
    var sentences := Sentences(text, maxLength);
    if |sentences| <= 1 then text else Join(sentences, "\n\n")
  }

  /** The loop of `splitLongParagraph`, `lastIndex` and all. */
  method SplitLongParagraph(text: string, maxLength: int) returns (r: string)
    ensures r == SplitLong(text, maxLength)
  {
    var sentences: seq<string> := [];
    var currentParagraph := "";
    var lastIndex: nat := 0;
    var parts := Split(text, Enders(), true);
    for i := 0 to |parts|
      invariant FeedAll(Chunking(sentences, currentParagraph, lastIndex), parts[i..], maxLength)
        == FeedAll(Chunking([], [], 0), parts, maxLength)
    {
      var part := parts[i];
      assert parts[i..][1..] == parts[i + 1..];
      var test := Test(part, lastIndex);
      var isMark := test.0;
      lastIndex := test.1;
      currentParagraph := currentParagraph + part;
      if isMark && |currentParagraph| >= maxLength {
        if Trim(currentParagraph) != [] {
          sentences := sentences + [Trim(currentParagraph)];
        }
        currentParagraph := "";
      }
    }
    if Trim(currentParagraph) != [] {
      sentences := sentences + [Trim(currentParagraph)];
    }
    if |sentences| <= 1 {
      return text;
    }
    r := Join(sentences, "\n\n");
  }

  // ---------------------------------------------------------------------------
  // The whole pass

  /** `/([^\n])\n([^\n])/g` replaced by `'$1 $2'`: a match consumes both neighbours of the break. */
  function Merge(): Matcher {
    (s: string, i: nat) =>
      if i + 2 < |s| && s[i] != '\n' && s[i + 1] == '\n' && s[i + 2] != '\n' then
        Some(Hit(3, [s[i], ' ', s[i + 2]]))
      else None
  }

  /**
   * `/(?<=[^\n])\n(?=[^\n])/g` replaced by a space: every single line break between two
   * other characters, including one whose left neighbour an earlier match turned into a space.
   */
  function MergeLone(): Matcher {
    (s: string, i: nat) =>
      if 0 < i && i + 1 < |s| && s[i - 1] != '\n' && s[i] == '\n' && s[i + 1] != '\n' then Some(Hit(1, " "))
      else None
  }

  /** `/[ \t]+\n/g` replaced by `'\n'`. */
  function BlanksBeforeBreak(): Matcher {
    (s: string, i: nat) =>
      if i < |s| && IsBlank(s[i]) then
        var j := RunEnd(s, i, IsBlank);
        if j < |s| && s[j] == '\n' then Some(Hit(j + 1 - i, "\n")) else None
      else None
  }

  /** `/\n[ \t]+/g` replaced by `'\n'`. */
  function BlanksAfterBreak(): Matcher {
    (s: string, i: nat) =>
      if i + 1 < |s| && s[i] == '\n' && IsBlank(s[i + 1]) then
        Some(Hit(RunEnd(s, i + 1, IsBlank) - i, "\n"))
      else None
  }

  /** `/\n{3,}/g` replaced by two line breaks. */
  function Cap(): Matcher {
    Run(Is('\n'), 3, "\n\n")
  }

  /** Steps 1 and 2 as written: single line breaks become spaces, longer runs one blank line. */
  function NormalizedAsWritten(text: string): string {
    ReplaceGlobal(ReplaceGlobal(text, Merge()), Run(Is('\n'), 2, "\n\n"))
  }

  /** Steps 1 and 2 with every single line break merged. */
  function Normalized(text: string): string {
    ReplaceGlobal(ReplaceGlobal(text, MergeLone()), Run(Is('\n'), 2, "\n\n"))
  }

  /** The callback of `paragraphs.map`, with the dialogue loop as written or with the corrected closing test. */
  function Process(para: string, opts: Settings, fixed: bool): string {
    if Trim(para) == [] then []
    else
      var parts := if fixed then DialogueParts(para) else DialoguePartsAsWritten(para);
      var p := if opts.dialogueNewLine && HasDialogue(para) then Join(parts, "\n") else para;
      if |p| > opts.maxParagraphLength then SplitLong(p, opts.maxParagraphLength) else p
  }

  /** `filter((p) => p.trim())`. */
  function NonBlank(ps: seq<string>): (r: seq<string>)
    ensures forall k :: 0 <= k < |r| ==> Trim(r[k]) != []
  {
    if ps == [] then []
    else (if Trim(ps[0]) != [] then [ps[0]] else []) + NonBlank(ps[1..])
  }

  /** Steps 3 to 5: split at blank lines, process each paragraph, drop blank ones, rejoin. */
  function Rejoined(s: string, opts: Settings, fixed: bool): string {
    var paragraphs := Split(s, Literal("\n\n", "\n\n"), false);
    var processed := seq(|paragraphs|, k requires 0 <= k < |paragraphs| => Process(paragraphs[k], opts, fixed));
    Join(NonBlank(processed), "\n\n")
  }

  /** Step 6 as written: runs of line breaks are capped first, then blanks around breaks go. */
  function CleanedAsWritten(s: string): string {
    var a := ReplaceGlobal(s, Cap());
    var b := ReplaceGlobal(a, BlanksBeforeBreak());
    ReplaceGlobal(b, BlanksAfterBreak())
  }

  /** `segmentParagraphs(text, options)` as written. */
  function SegmentParagraphs(text: string, options: SegmentOptions): (r: string)
    ensures text == [] ==> r == []
    ensures IsTrimmed(r)
  {
    if text == [] then text
    else
      var c := CleanedAsWritten(Rejoined(NormalizedAsWritten(text), Resolve(options), false));
      TrimIdempotent(c);
      Trim(c)
  }

  /** Step 6 with the cap on line breaks last, after the blanks that could split a run are gone. */
  function Cleaned(s: string): string {
    var a := ReplaceGlobal(s, BlanksBeforeBreak());
    var b := ReplaceGlobal(a, BlanksAfterBreak());
    ReplaceGlobal(b, Cap())
  }

  /**
   * `segmentParagraphs` corrected three ways: every single line break is merged
   * (`MergeLone`), a second `"` closes the dialogue it opened, and the line-break cap
   * runs after the blanks around breaks are removed (`Cleaned`).
   */
  function SegmentParagraphsCorrected(text: string, options: SegmentOptions): (r: string)
    ensures text == [] ==> r == []
    ensures IsTrimmed(r)
  {
    if text == [] then text
    else
      var c := Cleaned(Rejoined(Normalized(text), Resolve(options), true));
      TrimIdempotent(c);
      Trim(c)
  }

  // ---------------------------------------------------------------------------
  // Trimming

  /** Trimming removes whitespace only. */
  lemma RemoveTrim(x: string)
    ensures Remove(Trim(x), IsSpace) == Remove(x, IsSpace)
  {
    var a := LeadingSpaces(x);
    var t := Trim(x);
    var e := a + |t|;
    assert x == x[..a] + t + x[e..];
    RemoveConcat(x[..a] + t, x[e..], IsSpace);
    RemoveConcat(x[..a], t, IsSpace);
    RemoveAllSpace(x[..a]);
    RemoveAllSpace(x[e..]);
  }

  /** A string ending in a visible character keeps that character at the end when trimmed. */
  lemma TrimKeepsLast(x: string)
    requires x != [] && !IsSpace(x[|x| - 1])
    ensures Trim(x) != [] && Trim(x)[|Trim(x)| - 1] == x[|x| - 1]
  {
    var a := LeadingSpaces(x);
    var t := Trim(x);
    assert !AllSpace(x);
    SpaceSuffix(x, a + |t|);
  }

  lemma SpaceSuffix(x: string, e: nat)
    requires e <= |x| && AllSpace(x[e..])
    ensures e < |x| ==> IsSpace(x[|x| - 1])
  {
    if e < |x| {
      assert x[e..][|x| - 1 - e] == x[|x| - 1];
    }
  }

  /** What `Push` adds carries all of the pushed text but its outer whitespace. */
  lemma PushKeepsText(list: seq<string>, s: string)
    ensures Remove(Join(Push(list, s), ""), IsSpace) == Remove(Join(list, "") + s, IsSpace)
  {
    RemoveConcat(Join(list, ""), s, IsSpace);
    if Trim(s) != [] {
      JoinAppend(list, Trim(s));
      RemoveConcat(Join(list, ""), Trim(s), IsSpace);
      RemoveTrim(s);
    } else {
      RemoveAllSpace(s);
    }
  }

  lemma {:induction false} JoinAppend(list: seq<string>, s: string)
    ensures Join(list + [s], "") == Join(list, "") + s
  {
    if list != [] {
      assert (list + [s])[1..] == list[1..] + [s];
      JoinAppend(list[1..], s);
      if |list| == 1 {
        assert list[1..] == [];
      }
    }
  }

  /** Every element is non-empty and trimmed. */
  predicate AllTrimmed(ps: seq<string>) {
    forall k :: 0 <= k < |ps| ==> ps[k] != [] && IsTrimmed(ps[k])
  }

  lemma PushTrimmed(list: seq<string>, s: string)
    requires AllTrimmed(list)
    ensures AllTrimmed(Push(list, s))
  {
    TrimIdempotent(s);
  }

  // ---------------------------------------------------------------------------
  // What the dialogue loop guarantees

  lemma CloseTrimmed(st: Scan, c: char)
    requires AllTrimmed(st.parts) && Closes(st.dialogueChar, c)
    ensures AllTrimmed(Close(st, c).parts)
  {
    var x := st.current + [c];
    TrimKeepsLast(x);
    TrimIdempotent(x);
  }

  lemma StepTrimmed(st: Scan, c: char, fixed: bool)
    requires AllTrimmed(st.parts)
    ensures AllTrimmed(Next(st, c, fixed).parts)
  {
    if (fixed || !IsDialogueMark(c)) && Closes(st.dialogueChar, c) {
      CloseTrimmed(st, c);
    } else if IsDialogueMark(c) {
      PushTrimmed(st.parts, st.current);
    }
  }

  lemma {:induction false} ScannedTrimmed(st: Scan, s: string, fixed: bool)
    requires AllTrimmed(st.parts)
    ensures AllTrimmed(Scanned(st, s, fixed).parts)
    decreases |s|
  {
    if s != [] {
      StepTrimmed(st, s[0], fixed);
      ScannedTrimmed(Next(st, s[0], fixed), s[1..], fixed);
    }
  }

  /** Every dialogue part, in either version, is non-empty and has no outer whitespace. */
  lemma DialoguePartsTrimmed(para: string)
    ensures AllTrimmed(DialogueParts(para)) && AllTrimmed(DialoguePartsAsWritten(para))
  {
    ScannedTrimmed(START, para, true);
    ScannedTrimmed(START, para, false);
    var a := Scanned(START, para, true);
    var b := Scanned(START, para, false);
    PushTrimmed(a.parts, a.current);
    PushTrimmed(b.parts, b.current);
  }

  /** The text the loop has seen, whitespace aside. */
  function Seen(st: Scan): string {
    Remove(Join(st.parts, "") + st.current, IsSpace)
  }

  /** Closing a piece of dialogue keeps what was seen. */
  lemma CloseSeen(st: Scan, c: char)
    requires !IsSpace(c)
    ensures Seen(Close(st, c)) == Remove(Join(st.parts, "") + st.current + [c], IsSpace)
  {
    var j := Join(st.parts, "");
    TrimKeepsLast(st.current + [c]);
    assert Close(st, c).parts == Push(st.parts, st.current + [c]);
    PushKeepsText(st.parts, st.current + [c]);
    assert Join(Close(st, c).parts, "") + [] == Join(Close(st, c).parts, "");
    assert j + st.current + [c] == j + (st.current + [c]);
  }

  /** Opening a piece of dialogue keeps what was seen. */
  lemma OpenSeen(st: Scan, c: char)
    ensures Seen(Scan(Push(st.parts, st.current), [c], Some(c))) == Remove(Join(st.parts, "") + st.current + [c], IsSpace)
  {
    PushKeepsText(st.parts, st.current);
    RemoveConcat(Join(Push(st.parts, st.current), ""), [c], IsSpace);
    RemoveConcat(Join(st.parts, "") + st.current, [c], IsSpace);
  }

  /** A character of the current part keeps what was seen. */
  lemma PlainSeen(st: Scan, c: char)
    ensures Seen(Scan(st.parts, st.current + [c], st.dialogueChar)) == Remove(Join(st.parts, "") + st.current + [c], IsSpace)
  {
    assert Join(st.parts, "") + (st.current + [c]) == Join(st.parts, "") + st.current + [c];
  }

  lemma StepKeepsText(st: Scan, c: char, fixed: bool)
    ensures Seen(Next(st, c, fixed)) == Remove(Join(st.parts, "") + st.current + [c], IsSpace)
  {
    if (fixed || !IsDialogueMark(c)) && Closes(st.dialogueChar, c) {
      CloseSeen(st, c);
    } else if IsDialogueMark(c) {
      OpenSeen(st, c);
    } else {
      PlainSeen(st, c);
    }
  }

  /** Equal text, whitespace aside, stays equal when the same text follows. */
  lemma SameText(x: string, y: string, z: string)
    requires Remove(x, IsSpace) == Remove(y, IsSpace)
    ensures Remove(x + z, IsSpace) == Remove(y + z, IsSpace)
  {
    RemoveConcat(x, z, IsSpace);
    RemoveConcat(y, z, IsSpace);
  }

  /** What a state has seen, followed by more text. */
  lemma SeenThen(next: Scan, w: string, s: string)
    requires s != [] && Seen(next) == Remove(w + [s[0]], IsSpace)
    ensures Remove(Join(next.parts, "") + next.current + s[1..], IsSpace) == Remove(w + s, IsSpace)
  {
    SameText(Join(next.parts, "") + next.current, w + [s[0]], s[1..]);
    assert w + [s[0]] + s[1..] == w + s;
  }

  /** One turn of the loop, followed by the rest of the text. */
  lemma KeepsTextStep(st: Scan, s: string, fixed: bool)
    requires s != []
    ensures var next := Next(st, s[0], fixed);
      Remove(Join(next.parts, "") + next.current + s[1..], IsSpace) == Remove(Join(st.parts, "") + st.current + s, IsSpace)
  {
    StepKeepsText(st, s[0], fixed);
    SeenThen(Next(st, s[0], fixed), Join(st.parts, "") + st.current, s);
  }

  lemma {:induction false} ScannedKeepsText(st: Scan, s: string, fixed: bool)
    ensures Seen(Scanned(st, s, fixed)) == Remove(Join(st.parts, "") + st.current + s, IsSpace)
    decreases |s|
  {
    if s == [] {
      assert Join(st.parts, "") + st.current + s == Join(st.parts, "") + st.current;
    } else {
      ScannedKeepsText(Next(st, s[0], fixed), s[1..], fixed);
      KeepsTextStep(st, s, fixed);
    }
  }

  /** The parts, in order, hold all of the paragraph but whitespace. */
  lemma DialogueKeepsText(para: string)
    ensures Remove(Join(DialogueParts(para), ""), IsSpace) == Remove(para, IsSpace)
    ensures Remove(Join(DialoguePartsAsWritten(para), ""), IsSpace) == Remove(para, IsSpace)
  {
    ScannedKeepsText(START, para, true);
    ScannedKeepsText(START, para, false);
    var a := Scanned(START, para, true);
    var b := Scanned(START, para, false);
    PushKeepsText(a.parts, a.current);
    PushKeepsText(b.parts, b.current);
    assert Join(START.parts, "") + START.current + para == para;
  }

  // ---------------------------------------------------------------------------
  // Each piece of dialogue on its own

  lemma {:induction false} ScannedConcat(st: Scan, x: string, y: string, fixed: bool)
    ensures Scanned(st, x + y, fixed) == Scanned(Scanned(st, x, fixed), y, fixed)
    decreases |x|
  {
    if x != [] {
      assert (x + y)[1..] == x[1..] + y;
      ScannedConcat(Next(st, x[0], fixed), x[1..], y, fixed);
    } else {
      assert x + y == y;
    }
  }

  /** No dialogue mark and no closing bracket. */
  predicate NoMarks(s: string) {
    forall k :: 0 <= k < |s| ==> !IsDialogueMark(s[k]) && s[k] != '」' && s[k] != '』'
  }

  /** Text without marks is collected into the current part. */
  lemma {:induction false} ScannedPlain(st: Scan, s: string, fixed: bool)
    requires NoMarks(s)
    ensures Scanned(st, s, fixed) == Scan(st.parts, st.current + s, st.dialogueChar)
    decreases |s|
  {
    if s == [] {
      assert st.current + s == st.current;
    } else {
      var next := Scan(st.parts, st.current + [s[0]], st.dialogueChar);
      assert Next(st, s[0], fixed) == next;
      ScannedPlain(next, s[1..], fixed);
      assert st.current + [s[0]] + s[1..] == st.current + s;
    }
  }

  lemma PushShift(ps: seq<string>, qs: seq<string>, s: string)
    ensures Push(ps + qs, s) == ps + Push(qs, s)
  {
  }

  /** One turn of the loop carries earlier parts along. */
  lemma ShiftStep(ps: seq<string>, st: Scan, c: char, fixed: bool)
    ensures var next := Next(st, c, fixed);
      Next(Scan(ps + st.parts, st.current, st.dialogueChar), c, fixed) == Scan(ps + next.parts, next.current, next.dialogueChar)
  {
    PushShift(ps, st.parts, st.current);
    assert ps + st.parts + [Trim(st.current + [c])] == ps + (st.parts + [Trim(st.current + [c])]);
  }

  /** Parts already found are carried along unchanged. */
  lemma {:induction false} ScannedShift(ps: seq<string>, st: Scan, s: string, fixed: bool)
    ensures var t := Scanned(st, s, fixed);
      Scanned(Scan(ps + st.parts, st.current, st.dialogueChar), s, fixed) == Scan(ps + t.parts, t.current, t.dialogueChar)
    decreases |s|
  {
    if s != [] {
      ShiftStep(ps, st, s[0], fixed);
      ScannedShift(ps, Next(st, s[0], fixed), s[1..], fixed);
    }
  }

  /** The state after a closed piece of dialogue that follows plain text. */
  lemma ClosedDialogue(a: string, o: char, b: string, fixed: bool)
    requires IsDialogueMark(o) && NoMarks(a) && NoMarks(b)
    requires fixed || o != '"'
    ensures Scanned(START, a + [o] + b + [Partner(o)], fixed)
      == Scan(Push([], a) + [Trim([o] + b + [Partner(o)])], [], None)
  {
    ScannedConcat(START, a + [o] + b, [Partner(o)], fixed);
    Opened(a, o, b, fixed);
    var st3 := Scan(Push([], a), [o] + b, Some(o));
    assert Closes(Some(o), Partner(o));
    assert Scanned(st3, [Partner(o)], fixed) == Close(st3, Partner(o));
  }

  /**
   * A piece of dialogue after plain text becomes a part of its own; the text before it is
   * one part and the text after it is split on its own. As written this holds for 「…」
   * and 『…』; a "…" piece needs the closing test first.
   */
  lemma OwnPart(a: string, o: char, b: string, rest: string, fixed: bool)
    requires IsDialogueMark(o) && NoMarks(a) && NoMarks(b)
    requires fixed || o != '"'
    ensures DialoguePartsOf(a + [o] + b + [Partner(o)] + rest, fixed)
      == Push([], a) + [Trim([o] + b + [Partner(o)])] + DialoguePartsOf(rest, fixed)
  {
    var head := a + [o] + b + [Partner(o)];
    var ps := Push([], a) + [Trim([o] + b + [Partner(o)])];
    ScannedConcat(START, head, rest, fixed);
    ClosedDialogue(a, o, b, fixed);
    ScannedShift(ps, START, rest, fixed);
    assert Scan(ps + START.parts, START.current, START.dialogueChar) == Scan(ps, [], None);
    var t := Scanned(START, rest, fixed);
    PushShift(ps, t.parts, t.current);
  }

  /** The state after an opening mark and the text after it, which follow plain text. */
  lemma {:induction false} Opened(a: string, o: char, b: string, fixed: bool)
    requires IsDialogueMark(o) && NoMarks(a) && NoMarks(b)
    ensures Scanned(START, a + [o] + b, fixed) == Scan(Push([], a), [o] + b, Some(o))
  {
    var st1 := Scan([], a, None);
    var st2 := Scan(Push([], a), [o], Some(o));
    ScannedPlain(START, a, fixed);
    assert START.current + a == a;
    assert Scanned(START, a, fixed) == st1;
    ScannedConcat(START, a, [o], fixed);
    OpenStep(st1, o, fixed);
    assert Scanned(START, a + [o], fixed) == st2;
    ScannedConcat(START, a + [o], b, fixed);
    ScannedPlain(st2, b, fixed);
  }

  lemma OpenStep(st: Scan, o: char, fixed: bool)
    requires IsDialogueMark(o) && st.dialogueChar == None
    ensures Scanned(st, [o], fixed) == Scan(Push(st.parts, st.current), [o], Some(o))
  {
    assert [o][1..] == [];
  }

  /** The state after a quoted piece that follows plain text, as written. */
  lemma OpenedTwice(a: string, b: string)
    requires NoMarks(a) && NoMarks(b)
    ensures Scanned(START, a + ['"'] + b + ['"'], false)
      == Scan(Push(Push([], a), ['"'] + b), ['"'], Some('"'))
  {
    ScannedConcat(START, a + ['"'] + b, ['"'], false);
    Opened(a, '"', b, false);
    var st3 := Scan(Push([], a), ['"'] + b, Some('"'));
    assert Scanned(st3, ['"'], false) == StepAsWritten(st3, '"');
  }

  /** As written, a straight quote never closes: the closing `"` starts another part. */
  lemma QuoteNeverCloses(a: string, b: string, c: string)
    requires NoMarks(a) && NoMarks(b) && NoMarks(c)
    ensures DialoguePartsAsWritten(a + ['"'] + b + ['"'] + c)
      == Push(Push(Push([], a), ['"'] + b), ['"'] + c)
  {
    ScannedConcat(START, a + ['"'] + b + ['"'], c, false);
    OpenedTwice(a, b);
    ScannedPlain(Scan(Push(Push([], a), ['"'] + b), ['"'], Some('"')), c, false);
  }

  lemma PushWhole(list: seq<string>, t: string)
    requires t != [] && IsTrimmed(t)
    ensures Push(list, t) == list + [t]
  {
    TrimOfTrimmed(t);
  }

  lemma QuotedTrimmed(b: string)
    requires IsTrimmed(b)
    ensures IsTrimmed(['"'] + b) && IsTrimmed(['"'] + b + ['"'])
  {
  }

  /** A paragraph without dialogue is one part, in both versions. */
  lemma PlainParts(c: string, fixed: bool)
    requires c != [] && IsTrimmed(c) && NoMarks(c)
    ensures DialoguePartsOf(c, fixed) == [c]
  {
    ScannedPlain(START, c, fixed);
    assert START.current + c == c;
    PushWhole([], c);
  }

  /** Pushing trimmed text, a quoted piece and a quoted tail keeps each as it stands. */
  lemma ThreePushes(a: string, b: string, c: string)
    requires a != [] && IsTrimmed(a) && IsTrimmed(b) && IsTrimmed(c)
    ensures Push(Push(Push([], a), ['"'] + b), ['"'] + c) == [a, ['"'] + b, ['"'] + c]
  {
    var q := '"';
    PushWhole([], a);
    assert Push([], a) == [a];
    QuotedTrimmed(b);
    PushWhole([a], [q] + b);
    assert Push([a], [q] + b) == [a, [q] + b];
    QuotedTrimmed(c);
    PushWhole([a, [q] + b], [q] + c);
  }

  /** Plain text, a straight-quoted piece and more plain text: as written the second `"` opens another part. */
  lemma QuoteTornParts(a: string, b: string, c: string)
    requires a != [] && c != [] && IsTrimmed(a) && IsTrimmed(b) && IsTrimmed(c)
    requires NoMarks(a) && NoMarks(b) && NoMarks(c)
    ensures DialoguePartsAsWritten(a + ['"'] + b + ['"'] + c) == [a, ['"'] + b, ['"'] + c]
  {
    QuoteNeverCloses(a, b, c);
    ThreePushes(a, b, c);
  }

  lemma TwoParts(x: seq<string>, p: seq<string>, a: string, t: string, d: seq<string>)
    requires x == p + [t] + d && p == [a]
    ensures x == [a, t] + d
  {
  }

  lemma TrimmedPieces(a: string, o: char, b: string)
    requires IsDialogueMark(o) && a != [] && IsTrimmed(a) && IsTrimmed(b)
    ensures Push([], a) == [a] && Trim([o] + b + [Partner(o)]) == [o] + b + [Partner(o)]
  {
    PushWhole([], a);
    TrimOfTrimmed([o] + b + [Partner(o)]);
  }

  /** Trimmed plain text followed by trimmed dialogue: both are parts exactly as they stand. */
  lemma KeptHead(a: string, o: char, b: string, rest: string)
    requires IsDialogueMark(o) && a != [] && IsTrimmed(a) && IsTrimmed(b) && NoMarks(a) && NoMarks(b)
    ensures DialogueParts(a + [o] + b + [Partner(o)] + rest) == [a, [o] + b + [Partner(o)]] + DialogueParts(rest)
  {
    var t := [o] + b + [Partner(o)];
    OwnPart(a, o, b, rest, true);
    TrimmedPieces(a, o, b);
    TwoParts(DialogueParts(a + [o] + b + [Partner(o)] + rest), Push([], a), a, t, DialogueParts(rest));
  }

  /** The same text with the closing test first: the quoted piece is one part. */
  lemma QuoteKeptParts(a: string, b: string, c: string)
    requires a != [] && c != [] && IsTrimmed(a) && IsTrimmed(b) && IsTrimmed(c)
    requires NoMarks(a) && NoMarks(b) && NoMarks(c)
    ensures DialogueParts(a + ['"'] + b + ['"'] + c) == [a, ['"'] + b + ['"'], c]
  {
    assert Partner('"') == '"';
    KeptHead(a, '"', b, c);
    PlainParts(c, true);
  }

  /** A paragraph with a quoted sentence in it. */
  const QUOTED: string := "他說\"你好\"然後"

  /** `他說"你好"然後`: as written the quote is torn apart; the corrected loop keeps `"你好"` whole. */
  lemma QuoteExample()
    ensures DialoguePartsAsWritten(QUOTED) == ["他說", "\"你好", "\"然後"]
    ensures DialogueParts(QUOTED) == ["他說", "\"你好\"", "然後"]
  {
    QuotePlain();
    QuoteJoined();
    QuoteTornParts("他說", "你好", "然後");
    QuoteKeptParts("他說", "你好", "然後");
  }

  /** The options of a caller that asks for dialogue on its own lines. */
  const DIALOGUE_LINES: SegmentOptions := SegmentOptions(None, None, Some(true))

  /**
   * With `dialogueNewLine` on, the paragraph `他說"你好"然後` is put on three lines: as
   * written the closing `"` starts the third line, corrected it ends the second.
   */
  lemma QuoteProcessed()
    ensures Process(QUOTED, Resolve(DIALOGUE_LINES), false) == "他說" + "\n" + "\"你好" + "\n" + "\"然後"
    ensures Process(QUOTED, Resolve(DIALOGUE_LINES), true) == "他說" + "\n" + "\"你好\"" + "\n" + "然後"
  {
    QuoteExample();
    QuoteHasDialogue();
    ThreeLines("他說", "\"你好", "\"然後");
    ThreeLines("他說", "\"你好\"", "然後");
    DialogueLine(QUOTED, Resolve(DIALOGUE_LINES), false);
    DialogueLine(QUOTED, Resolve(DIALOGUE_LINES), true);
  }

  lemma QuoteHasDialogue()
    ensures HasDialogue(QUOTED) && Trim(QUOTED) != []
  {
    assert IsDialogueMark(QUOTED[2]);
    TrimOfTrimmed(QUOTED);
  }

  /** A non-blank paragraph with dialogue, short enough not to be cut, becomes its parts one per line. */
  lemma DialogueLine(para: string, opts: Settings, fixed: bool)
    requires Trim(para) != [] && opts.dialogueNewLine && HasDialogue(para)
    requires var parts := if fixed then DialogueParts(para) else DialoguePartsAsWritten(para);
      |Join(parts, "\n")| <= opts.maxParagraphLength
    ensures Process(para, opts, fixed) == Join(if fixed then DialogueParts(para) else DialoguePartsAsWritten(para), "\n")
  {
  }

  lemma ThreeLines(x: string, y: string, z: string)
    ensures Join([x, y, z], "\n") == x + "\n" + y + "\n" + z
  {
    assert [x, y, z][1..] == [y, z];
    JoinTwo(y, z, "\n");
  }

  lemma QuotePlain()
    ensures NoMarks("他說") && NoMarks("你好") && NoMarks("然後")
    ensures IsTrimmed("他說") && IsTrimmed("你好") && IsTrimmed("然後")
  {
  }

  lemma QuoteJoined()
    ensures "他說" + ['"'] + "你好" + ['"'] + "然後" == QUOTED
    ensures ['"'] + "你好" == "\"你好" && ['"'] + "然後" == "\"然後"
    ensures ['"'] + "你好" + ['"'] == "\"你好\""
  {
  }


  // ---------------------------------------------------------------------------
  // What splitting a long paragraph guarantees

  predicate NoEnder(s: string) {
    forall k :: 0 <= k < |s| ==> !IsEnder(s[k])
  }

  predicate IsEnderPart(s: string) {
    |s| == 1 && IsEnder(s[0])
  }

  /** Text, a mark, text, a mark, ..., text: the shape `split` with a capture group gives. */
  predicate Alternating(parts: seq<string>)
    decreases |parts|
  {
    |parts| >= 1 && NoEnder(parts[0])
    && (|parts| == 1 || (|parts| >= 3 && IsEnderPart(parts[1]) && Alternating(parts[2..])))
  }

  lemma JoinCons(x: string, r: seq<string>)
    ensures Join([x] + r, "") == x + Join(r, "")
  {
    if r == [] {
      assert x + [] == x;
    } else {
      assert ([x] + r)[1..] == r;
    }
  }

  /** A mark at `q` ends the piece that started at `p`. */
  lemma EnderUnfold(s: string, p: nat, q: nat)
    requires p <= q < |s| && IsEnder(s[q])
    ensures SplitFrom(s, Enders(), true, p, q) == [s[p..q]] + ([[s[q]]] + SplitFrom(s, Enders(), true, q + 1, q + 1))
  {
    assert ValidHit(s, Enders(), q);
  }

  /** Text and a mark in front of alternating pieces still alternate, and join to their sum. */
  lemma AlternatingCons(x: string, c: char, rest: seq<string>)
    requires NoEnder(x) && IsEnder(c) && Alternating(rest)
    ensures Alternating([x] + ([[c]] + rest))
    ensures Join([x] + ([[c]] + rest), "") == x + [c] + Join(rest, "")
  {
    var parts := [x] + ([[c]] + rest);
    assert parts[2..] == rest;
    JoinCons(x, [[c]] + rest);
    JoinCons([c], rest);
  }

  lemma SliceAround(s: string, p: nat, q: nat)
    requires p <= q < |s|
    ensures s[p..] == s[p..q] + [s[q]] + s[q + 1..]
  {
  }

  /** The pieces from `p` on, when `s[p..q]` holds no mark. */
  lemma {:induction false} EnderPieces(s: string, p: nat, q: nat)
    requires p <= q <= |s| && NoEnder(s[p..q])
    ensures Alternating(SplitFrom(s, Enders(), true, p, q))
    ensures Join(SplitFrom(s, Enders(), true, p, q), "") == s[p..]
    decreases |s| - q
  {
    if q == |s| {
      assert SplitFrom(s, Enders(), true, p, q) == [s[p..]];
    } else if IsEnder(s[q]) {
      EnderUnfold(s, p, q);
      assert NoEnder(s[q + 1..q + 1]);
      EnderPieces(s, q + 1, q + 1);
      AlternatingCons(s[p..q], s[q], SplitFrom(s, Enders(), true, q + 1, q + 1));
      SliceAround(s, p, q);
    } else {
      assert !ValidHit(s, Enders(), q);
      assert s[p..q + 1] == s[p..q] + [s[q]];
      EnderPieces(s, p, q + 1);
    }
  }

  /** Cutting at the sentence-ending marks alternates text and marks and loses nothing. */
  lemma EnderSplit(text: string)
    ensures Alternating(Split(text, Enders(), true))
    ensures Join(Split(text, Enders(), true), "") == text
  {
    assert NoEnder(text[0..0]);
    EnderPieces(text, 0, 0);
    assert text[0..] == text;
  }

  /** One turn of the loop with a plain test for a mark, no `lastIndex` involved. */
  function FeedPlain(st: Chunking, part: string, maxLength: int): Chunking {
    var current := st.current + part;
    if IsEnderPart(part) && |current| >= maxLength then Chunking(Push(st.sentences, current), [], 0)
    else Chunking(st.sentences, current, 0)
  }

  function FeedAllPlain(st: Chunking, parts: seq<string>, maxLength: int): Chunking
    decreases |parts|
  {
    if parts == [] then st else FeedAllPlain(FeedPlain(st, parts[0], maxLength), parts[1..], maxLength)
  }

  lemma TextTest(part: string, lastIndex: nat)
    requires NoEnder(part)
    ensures Test(part, lastIndex) == (false, 0)
  {
  }

  /**
   * The global regular expression's `lastIndex` never changes the outcome: a text part
   * is never taken for a mark, and the mark after it is always searched from 0.
   */
  lemma {:induction false} LastIndexHarmless(sentences: seq<string>, current: string, lastIndex: nat,
                                             parts: seq<string>, maxLength: int)
    requires Alternating(parts)
    ensures FeedAll(Chunking(sentences, current, lastIndex), parts, maxLength)
      == FeedAllPlain(Chunking(sentences, current, 0), parts, maxLength)
    decreases |parts|
  {
    var t := parts[0];
    TextTest(t, lastIndex);
    assert !IsEnderPart(t);
    var st := Chunking(sentences, current + t, 0);
    assert Feed(Chunking(sentences, current, lastIndex), t, maxLength) == st;
    assert FeedPlain(Chunking(sentences, current, 0), t, maxLength) == st;
    if |parts| == 1 {
      assert parts[1..] == [];
    } else {
      var e := parts[1];
      assert FirstEnder(e, 0) == Some(0);
      var after := Feed(st, e, maxLength);
      var plain := FeedPlain(st, e, maxLength);
      assert after == Chunking(plain.sentences, plain.current, 1);
      assert parts[1..][1..] == parts[2..];
      LastIndexHarmless(plain.sentences, plain.current, 1, parts[2..], maxLength);
    }
  }

  /** Every sentence cut off inside the loop ends with a sentence-ending mark. */
  predicate EndsWithEnder(s: string) {
    s != [] && IsEnder(s[|s| - 1])
  }

  lemma {:induction false} FedSentences(st: Chunking, parts: seq<string>, maxLength: int)
    requires forall k :: 0 <= k < |st.sentences| ==> EndsWithEnder(st.sentences[k])
    requires AllTrimmed(st.sentences)
    requires forall k :: 0 <= k < |parts| ==> NoEnder(parts[k]) || IsEnderPart(parts[k])
    ensures var r := FeedAllPlain(st, parts, maxLength);
      AllTrimmed(r.sentences) && forall k :: 0 <= k < |r.sentences| ==> EndsWithEnder(r.sentences[k])
    decreases |parts|
  {
    if parts != [] {
      var part := parts[0];
      var next := FeedPlain(st, part, maxLength);
      if IsEnderPart(part) && |st.current + part| >= maxLength {
        var x := st.current + part;
        assert x[|x| - 1] == part[0];
        TrimKeepsLast(x);
        PushTrimmed(st.sentences, x);
        assert next.sentences == st.sentences + [Trim(x)];
      }
      FedSentences(next, parts[1..], maxLength);
    }
  }

  lemma {:induction false} AlternatingParts(parts: seq<string>)
    requires Alternating(parts)
    ensures forall k :: 0 <= k < |parts| ==> NoEnder(parts[k]) || IsEnderPart(parts[k])
    decreases |parts|
  {
    if |parts| > 1 {
      AlternatingParts(parts[2..]);
      forall k | 2 <= k < |parts|
        ensures NoEnder(parts[k]) || IsEnderPart(parts[k])
      {
        assert parts[k] == parts[2..][k - 2];
      }
    }
  }

  /**
   * The pieces of a long paragraph are trimmed and non-blank, and every piece but the
   * last ends with 。, ！ or ？: the paragraph is cut only after a sentence.
   */
  lemma SentencesEnd(text: string, maxLength: int)
    ensures AllTrimmed(Sentences(text, maxLength))
    ensures var ss := Sentences(text, maxLength);
      forall k :: 0 <= k < |ss| - 1 ==> EndsWithEnder(ss[k])
  {
    var parts := Split(text, Enders(), true);
    EnderSplit(text);
    AlternatingParts(parts);
    LastIndexHarmless([], [], 0, parts, maxLength);
    FedSentences(Chunking([], [], 0), parts, maxLength);
    var st := FeedAll(Chunking([], [], 0), parts, maxLength);
    PushTrimmed(st.sentences, st.current);
  }

  lemma FeedKeepsText(st: Chunking, part: string, maxLength: int)
    ensures var next := Feed(st, part, maxLength);
      Remove(Join(next.sentences, "") + next.current, IsSpace)
      == Remove(Join(st.sentences, "") + st.current + part, IsSpace)
  {
    var x := st.current + part;
    var next := Feed(st, part, maxLength);
    assert Join(st.sentences, "") + st.current + part == Join(st.sentences, "") + x;
    if next.current == [] {
      PushKeepsText(st.sentences, x);
      assert Join(next.sentences, "") + next.current == Join(next.sentences, "");
    }
  }

  /** What the chunking has seen, followed by the remaining parts. */
  lemma ChunkThen(next: Chunking, w: string, parts: seq<string>)
    requires parts != [] && Remove(Join(next.sentences, "") + next.current, IsSpace) == Remove(w + parts[0], IsSpace)
    ensures Remove(Join(next.sentences, "") + next.current + Join(parts[1..], ""), IsSpace)
            == Remove(w + Join(parts, ""), IsSpace)
  {
    SameText(Join(next.sentences, "") + next.current, w + parts[0], Join(parts[1..], ""));
    JoinFirst(w, parts);
  }

  lemma JoinFirst(w: string, parts: seq<string>)
    requires parts != []
    ensures w + parts[0] + Join(parts[1..], "") == w + Join(parts, "")
  {
    assert parts == [parts[0]] + parts[1..];
    JoinCons(parts[0], parts[1..]);
  }

  lemma {:induction false} FedText(st: Chunking, parts: seq<string>, maxLength: int)
    ensures var r := FeedAll(st, parts, maxLength);
      Remove(Join(r.sentences, "") + r.current, IsSpace)
      == Remove(Join(st.sentences, "") + st.current + Join(parts, ""), IsSpace)
    decreases |parts|
  {
    if parts == [] {
      assert Join(st.sentences, "") + st.current + Join(parts, "") == Join(st.sentences, "") + st.current;
    } else {
      FedText(Feed(st, parts[0], maxLength), parts[1..], maxLength);
      FeedKeepsText(st, parts[0], maxLength);
      ChunkThen(Feed(st, parts[0], maxLength), Join(st.sentences, "") + st.current, parts);
    }
  }

  /** The pieces hold all of the paragraph's visible text, in order. */
  lemma SentencesKeepText(text: string, maxLength: int)
    ensures Remove(Join(Sentences(text, maxLength), ""), IsSpace) == Remove(text, IsSpace)
  {
    var parts := Split(text, Enders(), true);
    EnderSplit(text);
    FedText(Chunking([], [], 0), parts, maxLength);
    var st := FeedAll(Chunking([], [], 0), parts, maxLength);
    PushKeepsText(st.sentences, st.current);
    assert Join([], "") + [] + Join(parts, "") == text;
  }

  lemma {:induction false} RemoveJoinSpaces(ps: seq<string>, sep: string)
    requires AllSpace(sep)
    ensures Remove(Join(ps, sep), IsSpace) == Remove(Join(ps, ""), IsSpace)
    decreases |ps|
  {
    if |ps| > 1 {
      RemoveJoinSpaces(ps[1..], sep);
      RemoveConcat(ps[0] + sep, Join(ps[1..], sep), IsSpace);
      RemoveConcat(ps[0], sep, IsSpace);
      RemoveAllSpace(sep);
      RemoveConcat(ps[0] + "", Join(ps[1..], ""), IsSpace);
      assert ps[0] + "" == ps[0];
    }
  }

  /** Cutting a long paragraph only adds or drops whitespace. */
  lemma SplitLongKeepsText(text: string, maxLength: int)
    ensures Remove(SplitLong(text, maxLength), IsSpace) == Remove(text, IsSpace)
  {
    var ss := Sentences(text, maxLength);
    if |ss| > 1 {
      RemoveJoinSpaces(ss, "\n\n");
      SentencesKeepText(text, maxLength);
    }
  }

  /** With no options given, a non-blank paragraph of at most 1000 characters is left as it is. */
  lemma DefaultsKeepShort(para: string, fixed: bool)
    requires Trim(para) != [] && |para| <= 1000
    ensures Process(para, Resolve(NO_OPTIONS), fixed) == para
  {
  }

  // ---------------------------------------------------------------------------
  // At most one blank line between paragraphs

  /** No three line breaks in a row. */
  predicate NoTriple(t: string) {
    forall k :: 0 <= k && k + 2 < |t| ==> !(t[k] == '\n' && t[k + 1] == '\n' && t[k + 2] == '\n')
  }

  /** Two breaks in front of text that does not start with a break make no triple. */
  lemma NoTripleAfterPair(rest: string)
    requires NoTriple(rest) && (rest == [] || rest[0] != '\n')
    ensures NoTriple("\n\n" + rest)
  {
    var o := "\n\n" + rest;
    forall k | 0 <= k && k + 2 < |o|
      ensures !(o[k] == '\n' && o[k + 1] == '\n' && o[k + 2] == '\n')
    {
      if k >= 2 {
        assert o[k] == rest[k - 2] && o[k + 1] == rest[k - 1] && o[k + 2] == rest[k];
      } else {
        assert o[2] == rest[0];
      }
    }
  }

  /** One character in front of text makes no triple unless it is a break before two more. */
  lemma NoTripleCons(c: char, rest: string)
    requires NoTriple(rest) && (c == '\n' && |rest| >= 2 ==> !(rest[0] == '\n' && rest[1] == '\n'))
    ensures NoTriple([c] + rest)
  {
    var o := [c] + rest;
    forall k | 0 <= k && k + 2 < |o|
      ensures !(o[k] == '\n' && o[k + 1] == '\n' && o[k + 2] == '\n')
    {
      if k >= 1 {
        assert o[k] == rest[k - 1] && o[k + 1] == rest[k] && o[k + 2] == rest[k + 1];
      }
    }
  }

  /** Where the cap matches, two breaks replace the run. */
  lemma CapHit(s: string, i: nat)
    requires i <= |s| && ValidHit(s, Cap(), i)
    ensures RunEnd(s, i, Is('\n')) - i >= 3
    ensures ReplaceFrom(s, Cap(), i) == "\n\n" + ReplaceFrom(s, Cap(), RunEnd(s, i, Is('\n')))
    ensures RunEnd(s, RunEnd(s, i, Is('\n')), Is('\n')) == RunEnd(s, i, Is('\n'))
  {
  }

  /** Where the cap does not match, the character is copied. */
  lemma CapMiss(s: string, i: nat)
    requires i < |s| && !ValidHit(s, Cap(), i)
    ensures RunEnd(s, i, Is('\n')) - i < 3
    ensures ReplaceFrom(s, Cap(), i) == [s[i]] + ReplaceFrom(s, Cap(), i + 1)
    ensures RunEnd(s, i, Is('\n')) - i == (if s[i] == '\n' then 1 + RunEnd(s, i + 1, Is('\n')) - (i + 1) else 0)
  {
  }

  /**
   * The output of the cap from position `i` has no three breaks in a row, and starts
   * with no more line breaks than the input does there (when that is fewer than two).
   */
  lemma {:induction false} CapsFrom(s: string, i: nat)
    requires i <= |s|
    ensures var o := ReplaceFrom(s, Cap(), i);
      var run := RunEnd(s, i, Is('\n')) - i;
      NoTriple(o)
      && (run == 0 ==> o == [] || o[0] != '\n')
      && (run == 1 ==> o != [] && o[0] == '\n' && (|o| == 1 || o[1] != '\n'))
    decreases |s| - i
  {
    if ValidHit(s, Cap(), i) {
      var e := RunEnd(s, i, Is('\n'));
      CapHit(s, i);
      CapsFrom(s, e);
      NoTripleAfterPair(ReplaceFrom(s, Cap(), e));
    } else if i < |s| {
      CapMiss(s, i);
      CapsFrom(s, i + 1);
      NoTripleCons(s[i], ReplaceFrom(s, Cap(), i + 1));
    }
  }

  /** After the cap no three line breaks are left in a row. */
  lemma Capped(s: string)
    ensures NoTriple(ReplaceGlobal(s, Cap()))
  {
    CapsFrom(s, 0);
  }

  lemma SliceNoTriple(t: string, i: nat, j: nat)
    requires NoTriple(t) && i <= j <= |t|
    ensures NoTriple(t[i..j])
  {
    var r := t[i..j];
    forall k | 0 <= k && k + 2 < |r|
      ensures !(r[k] == '\n' && r[k + 1] == '\n' && r[k + 2] == '\n')
    {
      assert r[k] == t[i + k] && r[k + 1] == t[i + k + 1] && r[k + 2] == t[i + k + 2];
    }
  }

  lemma TrimNoTriple(t: string)
    requires NoTriple(t)
    ensures NoTriple(Trim(t))
  {
    SliceNoTriple(t, LeadingSpaces(t), LeadingSpaces(t) + |Trim(t)|);
  }

  /** Paragraphs come out separated by at most one blank line: never three breaks in a row. */
  lemma SegmentLimitsBreaks(text: string, options: SegmentOptions)
    ensures NoTriple(SegmentParagraphsCorrected(text, options))
  {
    if text != [] {
      var b := Rejoined(Normalized(text), Resolve(options), true);
      var x := ReplaceGlobal(ReplaceGlobal(b, BlanksBeforeBreak()), BlanksAfterBreak());
      Capped(x);
      TrimNoTriple(Cleaned(b));
    }
  }

  /** A paragraph without sentence-ending marks is never cut. */
  lemma NoEnderUnchanged(text: string, maxLength: int)
    requires NoEnder(text)
    ensures SplitLong(text, maxLength) == text
  {
    SplitSkip(text, Enders(), true, 0, 0, |text|);
    assert text[0..] == text;
    assert Split(text, Enders(), true) == [text];
    assert Test(text, 0) == (false, 0);
    assert FeedAll(Chunking([], [], 0), [text], maxLength) == Chunking([], text, 0);
  }

  /** A non-blank paragraph with neither dialogue nor sentence-ending marks comes through as it is. */
  lemma ProcessPlain(para: string, opts: Settings, fixed: bool)
    requires Trim(para) != [] && NoEnder(para) && !HasDialogue(para)
    ensures Process(para, opts, fixed) == para
  {
    NoEnderUnchanged(para, opts.maxParagraphLength);
  }

  // The order of the final clean-up, on `a⏎b⏎ ⏎⏎c`: step 1 merges `a⏎b`, and the blank
  // left between the remaining breaks hides a run of three until the cap has already run.

  const BROKEN: string := "a\nb\n \n\nc"
  const MERGED: string := "a b\n \n\nc"
  const TRIPLED: string := "a b\n\n\nc"
  const DOUBLED: string := "a b\n\nc"

  lemma MergeStep()
    ensures NormalizedAsWritten(BROKEN) == MERGED
  {
    MergeOnce();
    PairKept();
  }

  lemma MergeOnce()
    ensures ReplaceGlobal(BROKEN, Merge()) == MERGED
  {
    var t := BROKEN;
    forall k | 3 <= k <= |t| ensures !ValidHit(t, Merge(), k) {
      assert k + 2 < |t| ==> t[k] == '\n' || t[k + 1] != '\n' || t[k + 2] == '\n';
    }
    assert ValidHit(t, Merge(), 0);
    OneHit(t, Merge(), 0);
  }

  lemma PairKept()
    ensures ReplaceGlobal(MERGED, Run(Is('\n'), 2, "\n\n")) == MERGED
  {
    PairKeptHit();
    PairKeptMisses();
    OneHit(MERGED, Run(Is('\n'), 2, "\n\n"), 5);
    PairSlices();
  }

  lemma PairKeptHit()
    ensures ValidHit(MERGED, Run(Is('\n'), 2, "\n\n"), 5)
    ensures Run(Is('\n'), 2, "\n\n")(MERGED, 5).value == Hit(2, "\n\n")
  {
    RunEndAt(MERGED, 5, 7, Is('\n'));
  }

  lemma PairSlices()
    ensures MERGED[..5] + "\n\n" + MERGED[7..] == MERGED
  {
  }

  lemma PairKeptMisses()
    ensures forall k :: 0 <= k < 5 ==> !ValidHit(MERGED, Run(Is('\n'), 2, "\n\n"), k)
    ensures forall k :: 7 <= k <= |MERGED| ==> !ValidHit(MERGED, Run(Is('\n'), 2, "\n\n"), k)
  {
    var u := MERGED;
    RunEndAt(u, 3, 4, Is('\n'));
    assert u[0] != '\n' && u[1] != '\n' && u[2] != '\n' && u[4] != '\n' && u[7] != '\n';
  }

  lemma MergedSplit()
    ensures Split(MERGED, Literal("\n\n", "\n\n"), false) == ["a b\n ", "c"]
  {
    var u := MERGED;
    var m := Literal("\n\n", "\n\n");
    forall k | 0 <= k < 5 ensures !ValidHit(u, m, k) {
      LiteralHit(u, "\n\n", "\n\n", k);
      OccursAtSlice(u, k, "\n\n");
      assert u[k] != '\n' || u[k + 1] != '\n';
    }
    forall k | 7 <= k < |u| ensures !ValidHit(u, m, k) {
      LiteralHit(u, "\n\n", "\n\n", k);
      OccursAtSlice(u, k, "\n\n");
    }
    LiteralHit(u, "\n\n", "\n\n", 5);
    OccursAtSlice(u, 5, "\n\n");
    SplitSkip(u, m, false, 0, 0, 5);
    SplitSkip(u, m, false, 7, 7, 8);
    assert u[0..5] == "a b\n " && u[7..] == "c";
  }

  lemma Visible(x: string)
    requires x != [] && !IsSpace(x[0])
    ensures Trim(x) != []
  {
  }

  /** No character of `x` is a sentence end or a dialogue mark. */
  predicate Plain(x: string) {
    forall k :: 0 <= k < |x| ==> !IsEnder(x[k]) && !IsDialogueMark(x[k])
  }

  lemma PlainParagraph(x: string)
    requires x != [] && !IsSpace(x[0]) && Plain(x)
    ensures Trim(x) != [] && NoEnder(x) && !HasDialogue(x)
  {
    Visible(x);
  }

  lemma FirstPlain()
    ensures Plain("a b\n ")
  {
    var x := "a b\n ";
    assert x[0] == 'a' && x[1] == ' ' && x[2] == 'b' && x[3] == '\n' && x[4] == ' ';
  }

  lemma FirstParagraph()
    ensures Trim("a b\n ") != [] && NoEnder("a b\n ") && !HasDialogue("a b\n ")
  {
    FirstPlain();
    PlainParagraph("a b\n ");
  }

  lemma LastParagraph()
    ensures Trim("c") != [] && NoEnder("c") && !HasDialogue("c")
  {
    PlainParagraph("c");
  }

  /** Both paragraphs of the merged example are plain and visible. */
  lemma MergedParagraphs()
    ensures var ps := ["a b\n ", "c"];
      forall k :: 0 <= k < |ps| ==> Trim(ps[k]) != [] && NoEnder(ps[k]) && !HasDialogue(ps[k])
  {
    var ps := ["a b\n ", "c"];
    forall k | 0 <= k < |ps|
      ensures Trim(ps[k]) != [] && NoEnder(ps[k]) && !HasDialogue(ps[k])
    {
      if k == 0 {
        FirstParagraph();
      } else {
        LastParagraph();
      }
    }
  }

  lemma JoinTwo(x: string, y: string, sep: string)
    ensures Join([x, y], sep) == x + sep + y
  {
    assert [x, y][1..] == [y];
  }

  lemma ConsRest(ps: seq<string>)
    requires ps != []
    ensures [ps[0]] + ps[1..] == ps
  {
  }

  /** Every element is non-blank. */
  lemma {:induction false} NonBlankKeeps(ps: seq<string>)
    requires forall k :: 0 <= k < |ps| ==> Trim(ps[k]) != []
    ensures NonBlank(ps) == ps
    decreases |ps|
  {
    if ps != [] {
      var rest := ps[1..];
      forall k | 0 <= k < |rest| ensures Trim(rest[k]) != [] {
        assert rest[k] == ps[k + 1];
      }
      NonBlankKeeps(rest);
      assert Trim(ps[0]) != [];
      ConsRest(ps);
    }
  }

  /** Non-blank paragraphs without dialogue or sentence-ending marks are rejoined as they were. */
  lemma RejoinPlain(s: string, opts: Settings, fixed: bool)
    requires var ps := Split(s, Literal("\n\n", "\n\n"), false);
      forall k :: 0 <= k < |ps| ==> Trim(ps[k]) != [] && NoEnder(ps[k]) && !HasDialogue(ps[k])
    ensures Rejoined(s, opts, fixed) == Join(Split(s, Literal("\n\n", "\n\n"), false), "\n\n")
  {
    var paragraphs := Split(s, Literal("\n\n", "\n\n"), false);
    var processed := seq(|paragraphs|, k requires 0 <= k < |paragraphs| => Process(paragraphs[k], opts, fixed));
    forall k | 0 <= k < |paragraphs| ensures processed[k] == paragraphs[k] {
      ProcessPlain(paragraphs[k], opts, fixed);
    }
    assert processed == paragraphs;
    NonBlankKeeps(paragraphs);
  }

  /** Steps 3 to 5 leave the merged example as it is, whatever the options. */
  lemma RejoinStep(opts: Settings, fixed: bool)
    ensures Rejoined(MERGED, opts, fixed) == MERGED
  {
    MergedSplit();
    MergedParagraphs();
    RejoinPlain(MERGED, opts, fixed);
    JoinTwo("a b\n ", "c", "\n\n");
    MergedJoined();
  }

  lemma MergedJoined()
    ensures "a b\n " + "\n\n" + "c" == MERGED
  {
  }

  lemma MergedUncapped()
    ensures ReplaceGlobal(MERGED, Cap()) == MERGED
  {
    var u := MERGED;
    RunEndAt(u, 3, 4, Is('\n'));
    RunEndAt(u, 5, 7, Is('\n'));
    RunEndAt(u, 6, 7, Is('\n'));
    forall k | 0 <= k <= |u| ensures !ValidHit(u, Cap(), k) {
      if k < |u| && u[k] == '\n' {
        assert k == 3 || k == 5 || k == 6;
      }
    }
    Idle(u, Cap());
  }

  lemma BlanksBeforeMisses()
    ensures forall k :: 0 <= k < 4 ==> !ValidHit(MERGED, BlanksBeforeBreak(), k)
    ensures forall k :: 6 <= k <= |MERGED| ==> !ValidHit(MERGED, BlanksBeforeBreak(), k)
  {
    var u := MERGED;
    RunEndAt(u, 1, 2, IsBlank);
    forall k | 0 <= k < 4 ensures !ValidHit(u, BlanksBeforeBreak(), k) {
    }
    forall k | 6 <= k <= |u| ensures !ValidHit(u, BlanksBeforeBreak(), k) {
    }
  }

  lemma BlanksBeforeHit()
    ensures ValidHit(MERGED, BlanksBeforeBreak(), 4) && BlanksBeforeBreak()(MERGED, 4).value == Hit(2, "\n")
  {
    RunEndAt(MERGED, 4, 5, IsBlank);
  }

  lemma MergedBlanksBefore()
    ensures ReplaceGlobal(MERGED, BlanksBeforeBreak()) == TRIPLED
  {
    BlanksBeforeMisses();
    BlanksBeforeHit();
    OneHit(MERGED, BlanksBeforeBreak(), 4);
    MergedSlices();
  }

  lemma MergedSlices()
    ensures MERGED[..4] + "\n" + MERGED[6..] == TRIPLED
  {
  }

  lemma TripledBlanksAfter()
    ensures ReplaceGlobal(TRIPLED, BlanksAfterBreak()) == TRIPLED
  {
    var w := TRIPLED;
    forall k | 0 <= k <= |w| ensures !ValidHit(w, BlanksAfterBreak(), k) {
      assert k + 1 < |w| ==> w[k] != '\n' || !IsBlank(w[k + 1]);
    }
    Idle(w, BlanksAfterBreak());
  }

  lemma TripledCapMisses()
    ensures forall k :: 0 <= k < 3 ==> !ValidHit(TRIPLED, Cap(), k)
    ensures forall k :: 6 <= k <= |TRIPLED| ==> !ValidHit(TRIPLED, Cap(), k)
  {
    var w := TRIPLED;
    forall k | 0 <= k < 3 ensures !ValidHit(w, Cap(), k) {
    }
    forall k | 6 <= k <= |w| ensures !ValidHit(w, Cap(), k) {
    }
  }

  lemma TripledCapHit()
    ensures ValidHit(TRIPLED, Cap(), 3) && Cap()(TRIPLED, 3).value == Hit(3, "\n\n")
  {
    RunEndAt(TRIPLED, 3, 6, Is('\n'));
  }

  lemma TripledCapped()
    ensures ReplaceGlobal(TRIPLED, Cap()) == DOUBLED
  {
    TripledCapMisses();
    TripledCapHit();
    OneHit(TRIPLED, Cap(), 3);
    TripledSlices();
  }

  lemma TripledSlices()
    ensures TRIPLED[..3] + "\n\n" + TRIPLED[6..] == DOUBLED
  {
  }

  lemma ResultsTrimmed()
    ensures Trim(TRIPLED) == TRIPLED && Trim(DOUBLED) == DOUBLED
  {
    TrimOfTrimmed(TRIPLED);
    TrimOfTrimmed(DOUBLED);
  }

  /** Steps 1 to 5 as written turn the example into the merged text. */
  lemma BrokenRejoined(options: SegmentOptions)
    ensures Rejoined(NormalizedAsWritten(BROKEN), Resolve(options), false) == MERGED
  {
    MergeStep();
    RejoinStep(Resolve(options), false);
  }

  /** Step 6 as written on the merged text: the cap finds no run of three, then the blank goes. */
  lemma MergedCleanedAsWritten()
    ensures CleanedAsWritten(MERGED) == TRIPLED
  {
    MergedUncapped();
    MergedBlanksBefore();
    TripledBlanksAfter();
  }

  /** Step 6 with the cap last: the blank goes, then the run of three is capped. */
  lemma MergedCleaned()
    ensures Trim(Cleaned(MERGED)) == DOUBLED
  {
    MergedBlanksBefore();
    TripledBlanksAfter();
    TripledCapped();
    ResultsTrimmed();
  }

  lemma TripledHasTriple()
    ensures !NoTriple(TRIPLED)
  {
    assert TRIPLED[3] == '\n' && TRIPLED[4] == '\n' && TRIPLED[5] == '\n';
  }

  /**
   * `a⏎b⏎ ⏎⏎c`: as written the result keeps three line breaks in a row, because the
   * blank between them is removed only after the cap; with the cap last there are two.
   */
  lemma BlankLineOrder(options: SegmentOptions)
    ensures SegmentParagraphs(BROKEN, options) == TRIPLED && !NoTriple(TRIPLED)
    ensures Rejoined(NormalizedAsWritten(BROKEN), Resolve(options), false) == MERGED
    ensures Trim(Cleaned(MERGED)) == DOUBLED
  {
    BrokenRejoined(options);
    MergedCleanedAsWritten();
    ResultsTrimmed();
    TripledHasTriple();
    MergedCleaned();
  }

  // ---------------------------------------------------------------------------
  // Merging single line breaks

  /** No line break stands alone between two other characters. */
  predicate NoLoneBreak(t: string) {
    forall k :: 0 < k && k + 1 < |t| ==> !(t[k - 1] != '\n' && t[k] == '\n' && t[k + 1] != '\n')
  }

  /** With the look-around rule no single line break is left inside a paragraph. */
  lemma MergesAll(s: string)
    ensures NoLoneBreak(ReplaceGlobal(s, MergeLone()))
  {
    var m := MergeLone();
    Pointwise(s, m, 0);
    var o := ReplaceGlobal(s, m);
    forall k | 0 < k && k + 1 < |o|
      ensures !(o[k - 1] != '\n' && o[k] == '\n' && o[k + 1] != '\n')
    {
      assert o[k - 1] == (if ValidHit(s, m, k - 1) then ' ' else s[k - 1]);
      assert o[k] == (if ValidHit(s, m, k) then ' ' else s[k]);
      assert o[k + 1] == (if ValidHit(s, m, k + 1) then ' ' else s[k + 1]);
    }
  }

  lemma LoneBreak(t: string, k: nat)
    requires 0 < k && k + 1 < |t| && t[k - 1] != '\n' && t[k] == '\n' && t[k + 1] != '\n'
    ensures !NoLoneBreak(t)
  {
  }

  const LINES: string := "a\nb\nc"

  lemma LinesMerged()
    ensures ReplaceGlobal(LINES, Merge()) == "a b\nc"
  {
    var t := LINES;
    forall k | 3 <= k <= |t| ensures !ValidHit(t, Merge(), k) {
    }
    assert ValidHit(t, Merge(), 0);
    OneHit(t, Merge(), 0);
    LinesSlices();
  }

  lemma LinesSlices()
    ensures LINES[..0] + [LINES[0], ' ', LINES[2]] + LINES[3..] == "a b\nc"
  {
  }

  lemma LinesLoneHits()
    ensures ValidHit(LINES, MergeLone(), 1) && ValidHit(LINES, MergeLone(), 3)
    ensures !ValidHit(LINES, MergeLone(), 0) && !ValidHit(LINES, MergeLone(), 2) && !ValidHit(LINES, MergeLone(), 4)
    ensures forall j :: 0 <= j <= |LINES| && ValidHit(LINES, MergeLone(), j) ==> MergeLone()(LINES, j).value == Hit(1, " ")
  {
  }

  lemma LinesMergedLone()
    ensures ReplaceGlobal(LINES, MergeLone()) == "a b c"
  {
    var t := LINES;
    LinesLoneHits();
    Pointwise(t, MergeLone(), 0);
    var o := ReplaceGlobal(t, MergeLone());
    assert |o| == 5;
    assert o[0] == 'a' && o[1] == ' ' && o[2] == 'b' && o[3] == ' ' && o[4] == 'c';
  }

  /** `a⏎b⏎c`: the first match consumes `b`, so the second break is never merged. */
  lemma MergeMissesSecond()
    ensures ReplaceGlobal(LINES, Merge()) == "a b\nc"
    ensures !NoLoneBreak("a b\nc")
    ensures ReplaceGlobal(LINES, MergeLone()) == "a b c"
  {
    LinesMerged();
    LoneBreak("a b\nc", 3);
    LinesMergedLone();
  }
}
