/**
 * The redundancy pass: five dictionary-driven and fixed deletions in order (redundant
 * phrases, fillers at clause edges, doubled patterns, a table of colloquial repeats,
 * repeated ideograph words of 8 down to 2 characters), then punctuation and whitespace
 * clean-up and a final trim. The dictionary is fetched once into a module-level cache.
 */
module RemoveRedundancy {
  import opened Wrappers
  import opened Chars
  import opened Rewrite
  import opened Sorting
  import opened Dictionary
  import Substitution
  import Spacing

  /** The redundancy dictionary's three word lists; a list missing from the file counts as empty. */
  datatype Lists = Lists(fillerWords: seq<string>, patterns: seq<string>, redundantPhrases: seq<string>)

  /** The cached dictionary before any load. */
  const Empty := Lists([], [], [])

  function Length(w: string): nat { |w| }

  /** `[...words].sort((a, b) => b.length - a.length)`. */
  function LongestFirst(ws: seq<string>): seq<string> {
    SortDesc(ws, Length)
  }

  // ---------------------------------------------------------------------------
  // Step 1: redundant phrases

  /** Every occurrence of each phrase is deleted, one phrase after the other. */
  function DropPhrases(text: string, phrases: seq<string>): string {
    if phrases == [] then text
    else ReplaceAll(DropPhrases(text, phrases[..|phrases| - 1]), phrases[|phrases| - 1], [])
  }

  // ---------------------------------------------------------------------------
  // Step 2: fillers at the edges of clauses

  predicate IsSentenceEnd(c: char) {
    c == '。' || c == '！' || c == '？' || c == '\n'
  }

  predicate IsListComma(c: char) {
    c == '，' || c == '、'
  }

  predicate IsFillerEnd(c: char) {
    c == '，' || c == '。' || c == '！' || c == '？' || c == '」' || c == '』'
  }

  /** The optional `[，、]?` at `k`: 1 when one is there, else 0. */
  function ListComma(s: string, k: nat): nat {
    if k < |s| && IsListComma(s[k]) then 1 else 0
  }

  /**
   * `(^|[。！？\n])F[，、]?` replaced by `'$1'`: a filler opening the text or following a
   * sentence end is deleted with at most one comma after it; the sentence end stays.
   */
  function AtStart(f: string): Matcher {
    (s: string, i: nat) =>
      if i == 0 && OccursAt(s, 0, f) then Some(Hit(|f| + ListComma(s, |f|), []))
      else if i < |s| && IsSentenceEnd(s[i]) && OccursAt(s, i + 1, f) then
        Some(Hit(1 + |f| + ListComma(s, i + 1 + |f|), [s[i]]))
      else None
  }

  /**
   * `F([，。！？」』]|$)` replaced by `'$1'`: a filler before one of those marks, or at the
   * very end, is deleted and the mark stays.
   */
  function AtEnd(f: string): Matcher {
    (s: string, i: nat) =>
      if OccursAt(s, i, f) && i + |f| < |s| && IsFillerEnd(s[i + |f|]) then Some(Hit(|f| + 1, [s[i + |f|]]))
      else if OccursAt(s, i, f) && i + |f| == |s| then Some(Hit(|f|, []))
      else None
  }

  /** `，F，` replaced by `，`. */
  function Between(f: string): string {
    "，" + f + "，"
  }

  /** The three filler rules for one filler, in order. */
  function DropFiller(s: string, f: string): string {
    ReplaceAll(ReplaceGlobal(ReplaceGlobal(s, AtStart(f)), AtEnd(f)), Between(f), "，")
  }

  /** The filler rules for each filler in turn. */
  function DropFillers(s: string, fillers: seq<string>): string {
    if fillers == [] then s
    else DropFiller(DropFillers(s, fillers[..|fillers| - 1]), fillers[|fillers| - 1])
  }

  // ---------------------------------------------------------------------------
  // Step 3: doubled patterns

  /** `pattern.substring(0, pattern.length / 2)`: the first ⌊len/2⌋ characters. */
  function Half(p: string): (h: string)
    ensures |h| == |p| / 2 && h == p[..|p| / 2]
  {
    p[..|p| / 2]
  }

  /** Every occurrence of each pattern replaced by its first half, one pattern after the other. */
  function HalvePatterns(s: string, patterns: seq<string>): string {
    if patterns == [] then s
    else ReplaceAll(HalvePatterns(s, patterns[..|patterns| - 1]), patterns[|patterns| - 1],
                    Half(patterns[|patterns| - 1]))
  }

  // ---------------------------------------------------------------------------
  // Step 4: colloquial repeats, in the table's order

  const Overlapping: Dict := [
    ("一下下", "一下"), ("等一下下", "等一下"), ("看一下下", "看一下"), ("想一下下", "想一下"),
    ("玩一下下", "玩一下"), ("試一下下", "試一下"), ("来一下下", "來一下"), ("來一下下", "來一下"),
    ("做一下下", "做一下"), ("用一下下", "用一下")
  ]

  // ---------------------------------------------------------------------------
  // Step 5: repeated words

  predicate AllHan(w: string) {
    forall k :: 0 <= k < |w| ==> IsHanExt(w[k])
  }

  /**
   * `([一-鿿㐀-䶿]{n})\s*\1` replaced by the word: `n` ideographs, any
   * whitespace, and the same `n` ideographs again. The word starts with an ideograph, so
   * only the longest whitespace run can be followed by it.
   */
  function Repeat(n: nat): Matcher {
    (s: string, i: nat) =>
      if i + n <= |s| && AllHan(s[i..i + n]) && OccursAt(s, RunEnd(s, i + n, IsSpace), s[i..i + n]) then
        Some(Hit(RunEnd(s, i + n, IsSpace) + n - i, s[i..i + n]))
      else None
  }

  /** The repeated-word rule for word lengths `n` down to 2. */
  function DropRepeats(s: string, n: nat): string
    decreases n
  {
    if n < 2 then s else DropRepeats(ReplaceGlobal(s, Repeat(n)), n - 1)
  }

  /** Steps 1 to 5. */
  function Reduce(text: string, d: Lists): string {
    var phrases := DropPhrases(text, d.redundantPhrases);
    var fillers := DropFillers(phrases, LongestFirst(d.fillerWords));
    var halved := HalvePatterns(fillers, LongestFirst(d.patterns));
    DropRepeats(Substitution.ApplyAll(halved, Overlapping), 8)
  }

  // ---------------------------------------------------------------------------
  // Steps 6 to 9 and the final trim

  /** Step 6: runs of ，。！？ collapse to one. */
  function CollapseMarks(s: string): string {
    var a := ReplaceGlobal(s, Run(Is('，'), 2, "，"));
    var b := ReplaceGlobal(a, Run(Is('。'), 2, "。"));
    var c := ReplaceGlobal(b, Run(Is('！'), 2, "！"));
    ReplaceGlobal(c, Run(Is('？'), 2, "？"))
  }

  /** Step 7: whitespace runs become one space. */
  function Squash(s: string): string {
    ReplaceGlobal(s, Run(IsSpace, 2, " "))
  }

  /** Step 8: no whitespace before closing punctuation. */
  function TightBefore(s: string): string {
    ReplaceGlobal(s, SpaceBefore(IsClosingMark))
  }

  /** Step 9: no whitespace after opening punctuation. */
  function TightAfter(s: string): string {
    ReplaceGlobal(s, SpaceAfter(IsOpeningMark))
  }

  /** `removeRedundancySync(text, d)`: empty text as it is, otherwise all nine steps and a trim. */
  function Spec(text: string, d: Lists): string {
    if text == [] then text
    else Trim(TightAfter(TightBefore(Squash(CollapseMarks(Reduce(text, d))))))
  }

  // ---------------------------------------------------------------------------
  // The pass

  /**
   * `removeRedundancySync(text, dictionary?)`: the given dictionary, or the cached one when
   * none is given, applied step by step.
   */
  method RemoveRedundancySync(cache: Cache<Lists>, text: string, dictionary: Option<Lists>)
    returns (result: string)
    ensures result == Spec(text, dictionary.GetOr(cache.value))
  {
    if text == [] {
      return text;
    }
    var dict := dictionary.GetOr(cache.value);
    result := DeletePhrases(text, dict.redundantPhrases);
    result := DeleteFillers(result, LongestFirst(dict.fillerWords));
    result := HalveAll(result, LongestFirst(dict.patterns));
    result := ApplyTable(result);
    result := CollapseRepeats(result);
    result := CleanUp(result);
  }

  /** Step 1's loop: each phrase deleted everywhere, in list order. */
  method DeletePhrases(text: string, phrases: seq<string>) returns (result: string)
    ensures result == DropPhrases(text, phrases)
  {
    result := text;
    for i := 0 to |phrases|
      invariant result == DropPhrases(text, phrases[..i])
    {
      assert phrases[..i + 1][..i] == phrases[..i];
      result := ReplaceAll(result, phrases[i], []);
    }
    assert phrases[..|phrases|] == phrases;
  }

  /** Step 2's loop: the three filler rules for each filler, longest filler first. */
  method DeleteFillers(text: string, fillers: seq<string>) returns (result: string)
    ensures result == DropFillers(text, fillers)
  {
    result := text;
    for i := 0 to |fillers|
      invariant result == DropFillers(text, fillers[..i])
    {
      var filler := fillers[i];
      assert fillers[..i + 1][..i] == fillers[..i];
      result := ReplaceGlobal(result, AtStart(filler));
      result := ReplaceGlobal(result, AtEnd(filler));
      result := ReplaceAll(result, Between(filler), "，");
    }
    assert fillers[..|fillers|] == fillers;
  }

  /** Step 3's loop: each pattern replaced by its first half, longest pattern first. */
  method HalveAll(text: string, patterns: seq<string>) returns (result: string)
    ensures result == HalvePatterns(text, patterns)
  {
    result := text;
    for i := 0 to |patterns|
      invariant result == HalvePatterns(text, patterns[..i])
    {
      var pattern := patterns[i];
      assert patterns[..i + 1][..i] == patterns[..i];
      result := ReplaceAll(result, pattern, pattern[..|pattern| / 2]);
    }
    assert patterns[..|patterns|] == patterns;
  }

  /** Step 4's loop over the colloquial table; an unchanged result is not reassigned. */
  method ApplyTable(text: string) returns (result: string)
    ensures result == Substitution.ApplyAll(text, Overlapping)
  {
    result := text;
    for i := 0 to |Overlapping|
      invariant result == Substitution.ApplyAll(text, Overlapping[..i])
    {
      var (overlapping, corrected) := Overlapping[i];
      assert Overlapping[..i + 1][..i] == Overlapping[..i];
      var newResult := ReplaceAll(result, overlapping, corrected);
      if newResult != result {
        result := newResult;
      }
    }
    assert Overlapping[..|Overlapping|] == Overlapping;
  }

  /** Step 5's loop: repeated words of 8 characters down to 2. */
  method CollapseRepeats(text: string) returns (result: string)
    ensures result == DropRepeats(text, 8)
  {
    result := text;
    var wordLen := 8;
    while wordLen >= 2
      invariant 1 <= wordLen <= 8
      invariant DropRepeats(result, wordLen) == DropRepeats(text, 8)
    {
      result := ReplaceGlobal(result, Repeat(wordLen));
      wordLen := wordLen - 1;
    }
  }

  /** Steps 6 to 9 and the trim. */
  method CleanUp(text: string) returns (result: string)
    ensures result == Trim(TightAfter(TightBefore(Squash(CollapseMarks(text)))))
  {
    result := ReplaceGlobal(text, Run(Is('，'), 2, "，"));
    result := ReplaceGlobal(result, Run(Is('。'), 2, "。"));
    result := ReplaceGlobal(result, Run(Is('！'), 2, "！"));
    result := ReplaceGlobal(result, Run(Is('？'), 2, "？"));
    result := ReplaceGlobal(result, Run(IsSpace, 2, " "));
    result := ReplaceGlobal(result, SpaceBefore(IsClosingMark));
    result := ReplaceGlobal(result, SpaceAfter(IsOpeningMark));
    result := Trim(result);
  }

  /**
   * `removeRedundancy(text)`: empty text is returned before any load; otherwise the
   * dictionary is loaded (`fetched` is the fetch's outcome) and the cached one applied.
   */
  method RemoveRedundancy(cache: Cache<Lists>, fetched: Option<Lists>, text: string) returns (result: string)
    modifies cache
    ensures text == [] ==> result == text && cache.loaded == old(cache.loaded) && cache.value == old(cache.value)
    ensures text != [] ==> cache.value == old(cache.Effective(fetched))
    ensures text != [] ==> cache.loaded == (old(cache.loaded) || fetched.Some?)
    ensures text != [] ==> result == Spec(text, cache.value)
  {
    if text == [] {
      return text;
    }
    var dict := cache.Load(fetched);
    assert dict == cache.value;
    result := RemoveRedundancySync(cache, text, Some(dict));
    assert Some(dict).GetOr(cache.value) == dict;
  }

  // ---------------------------------------------------------------------------
  // The output is never longer than the input

  lemma {:induction false} DropPhrasesNotLonger(text: string, phrases: seq<string>)
    ensures |DropPhrases(text, phrases)| <= |text|
  {
    if phrases != [] {
      DropPhrasesNotLonger(text, phrases[..|phrases| - 1]);
      ReplaceAllNotLonger(DropPhrases(text, phrases[..|phrases| - 1]), phrases[|phrases| - 1], []);
    }
  }

  lemma DropFillerNotLonger(s: string, f: string)
    ensures |DropFiller(s, f)| <= |s|
  {
    NotLonger(s, AtStart(f), 0);
    var a := ReplaceGlobal(s, AtStart(f));
    NotLonger(a, AtEnd(f), 0);
    ReplaceAllNotLonger(ReplaceGlobal(a, AtEnd(f)), Between(f), "，");
  }

  lemma {:induction false} DropFillersNotLonger(s: string, fillers: seq<string>)
    ensures |DropFillers(s, fillers)| <= |s|
  {
    if fillers != [] {
      DropFillersNotLonger(s, fillers[..|fillers| - 1]);
      DropFillerNotLonger(DropFillers(s, fillers[..|fillers| - 1]), fillers[|fillers| - 1]);
    }
  }

  lemma {:induction false} HalvePatternsNotLonger(s: string, patterns: seq<string>)
    ensures |HalvePatterns(s, patterns)| <= |s|
  {
    if patterns != [] {
      var p := patterns[|patterns| - 1];
      HalvePatternsNotLonger(s, patterns[..|patterns| - 1]);
      ReplaceAllNotLonger(HalvePatterns(s, patterns[..|patterns| - 1]), p, Half(p));
    }
  }

  lemma {:induction false} DropRepeatsNotLonger(s: string, n: nat)
    ensures |DropRepeats(s, n)| <= |s|
    decreases n
  {
    if n >= 2 {
      forall j | 0 <= j <= |s| && ValidHit(s, Repeat(n), j)
        ensures |Repeat(n)(s, j).value.out| <= Repeat(n)(s, j).value.len
      {
        var e := RunEnd(s, j + n, IsSpace);
        assert Repeat(n)(s, j).value == Hit(e + n - j, s[j..j + n]);
      }
      NotLonger(s, Repeat(n), 0);
      DropRepeatsNotLonger(ReplaceGlobal(s, Repeat(n)), n - 1);
    }
  }

  lemma ReduceNotLonger(text: string, d: Lists)
    ensures |Reduce(text, d)| <= |text|
  {
    var a := DropPhrases(text, d.redundantPhrases);
    DropPhrasesNotLonger(text, d.redundantPhrases);
    var b := DropFillers(a, LongestFirst(d.fillerWords));
    DropFillersNotLonger(a, LongestFirst(d.fillerWords));
    var c := HalvePatterns(b, LongestFirst(d.patterns));
    HalvePatternsNotLonger(b, LongestFirst(d.patterns));
    Substitution.ApplyAllNotLonger(c, Overlapping);
    DropRepeatsNotLonger(Substitution.ApplyAll(c, Overlapping), 8);
  }

  lemma CollapseMarksNotLonger(s: string)
    ensures |CollapseMarks(s)| <= |s|
  {
    var a := ReplaceGlobal(s, Run(Is('，'), 2, "，"));
    RunNotLonger(s, Is('，'), 2, "，");
    var b := ReplaceGlobal(a, Run(Is('。'), 2, "。"));
    RunNotLonger(a, Is('。'), 2, "。");
    var c := ReplaceGlobal(b, Run(Is('！'), 2, "！"));
    RunNotLonger(b, Is('！'), 2, "！");
    RunNotLonger(c, Is('？'), 2, "？");
  }

  lemma TightBeforeNotLonger(s: string)
    ensures |TightBefore(s)| <= |s|
  {
    forall j | 0 <= j <= |s| && ValidHit(s, SpaceBefore(IsClosingMark), j)
      ensures |SpaceBefore(IsClosingMark)(s, j).value.out| <= SpaceBefore(IsClosingMark)(s, j).value.len
    {
      SpaceBeforeHit(s, IsClosingMark, j);
    }
    NotLonger(s, SpaceBefore(IsClosingMark), 0);
  }

  lemma TightAfterNotLonger(s: string)
    ensures |TightAfter(s)| <= |s|
  {
    forall j | 0 <= j <= |s| && ValidHit(s, SpaceAfter(IsOpeningMark), j)
      ensures |SpaceAfter(IsOpeningMark)(s, j).value.out| <= SpaceAfter(IsOpeningMark)(s, j).value.len
    {
      SpaceAfterHit(s, IsOpeningMark, j);
    }
    NotLonger(s, SpaceAfter(IsOpeningMark), 0);
  }

  lemma CleanUpNotLonger(s: string)
    ensures |TightAfter(TightBefore(Squash(CollapseMarks(s))))| <= |s|
  {
    CollapseMarksNotLonger(s);
    RunNotLonger(CollapseMarks(s), IsSpace, 2, " ");
    TightBeforeNotLonger(Squash(CollapseMarks(s)));
    TightAfterNotLonger(TightBefore(Squash(CollapseMarks(s))));
  }

  /** Every step deletes or shortens: the output is never longer than the input. */
  lemma SpecNotLonger(text: string, d: Lists)
    ensures |Spec(text, d)| <= |text|
  {
    if text != [] {
      ReduceNotLonger(text, d);
      CleanUpNotLonger(Reduce(text, d));
    }
  }

  // ---------------------------------------------------------------------------
  // Spacing around punctuation

  /**
   * The output is trimmed, has no whitespace before closing punctuation, none after opening
   * punctuation, and no two whitespace characters in a row.
   */
  lemma SpecSpacing(text: string, d: Lists)
    ensures IsTrimmed(Spec(text, d))
    ensures NoPair(Spec(text, d), IsSpace, IsClosingMark)
    ensures NoPair(Spec(text, d), IsOpeningMark, IsSpace)
    ensures NoPair(Spec(text, d), IsSpace, IsSpace)
  {
    if text != [] {
      CleanUpSpacing(Reduce(text, d));
    }
  }

  /** Steps 5 to 9 and the trim, whatever the reduction left. */
  lemma CleanUpSpacing(r: string)
    ensures var o := Trim(TightAfter(TightBefore(Squash(CollapseMarks(r)))));
      IsTrimmed(o) && NoPair(o, IsSpace, IsClosingMark) && NoPair(o, IsOpeningMark, IsSpace)
      && NoPair(o, IsSpace, IsSpace)
  {
    var a := Squash(CollapseMarks(r));
    Spacing.RunClears(CollapseMarks(r));
    var c := TightAfter(TightBefore(a));
    TightStages(a);
    Spacing.TrimKeeps(c, IsSpace, IsClosingMark);
    Spacing.TrimKeeps(c, IsOpeningMark, IsSpace);
    Spacing.TrimKeeps(c, IsSpace, IsSpace);
    TrimIdempotent(c);
  }

  /** Steps 8 and 9 on text without two whitespace characters in a row. */
  lemma TightStages(a: string)
    requires NoPair(a, IsSpace, IsSpace)
    ensures var c := TightAfter(TightBefore(a));
      NoPair(c, IsSpace, IsClosingMark) && NoPair(c, IsOpeningMark, IsSpace) && NoPair(c, IsSpace, IsSpace)
  {
    var b := TightBefore(a);
    Spacing.SpaceBeforeClears(a, IsClosingMark);
    Spacing.SpaceBeforeKeeps(a, IsClosingMark, IsSpace, IsSpace);
    Spacing.SpaceAfterClears(b, IsOpeningMark);
    Spacing.SpaceAfterKeeps(b, IsOpeningMark, IsClosingMark);
    Spacing.SpaceAfterKeeps(b, IsOpeningMark, IsSpace);
  }

  // ---------------------------------------------------------------------------
  // Fillers

  /** A filler opening the text is deleted together with the comma after it. */
  lemma OpeningFiller(f: string, c: char, w: string)
    requires IsListComma(c) && !Contains(w, f)
    ensures ReplaceGlobal(f + [c] + w, AtStart(f)) == w
  {
    var pre := f + [c];
    var s := pre + w;
    var m := AtStart(f);
    OccursAtSlice(s, 0, f);
    assert s[..|f|] == f;
    assert m(s, 0) == Some(Hit(|f| + 1, []));
    forall j | |pre| <= j <= |s| ensures !ValidHit(s, m, j) {
      if j < |s| && IsSentenceEnd(s[j]) && OccursAt(s, j + 1, f) {
        OccursAfter(pre, w, j + 1 - |pre|, f);
      }
    }
    NoHitIdentity(s, m, |pre|);
    assert s[|pre|..] == w;
  }

  /** No position before `|a|` starts an occurrence of `f` when `a` lacks its first character. */
  lemma NotInPrefix(a: string, rest: string, f: string)
    requires f != [] && f[0] !in a
    ensures forall j :: 0 <= j < |a| ==> !OccursAt(a + rest, j, f)
  {
    forall j | 0 <= j < |a| ensures !OccursAt(a + rest, j, f) {
      assert (a + rest)[j] == a[j];
    }
  }

  /** No position inside `w` starts an occurrence of `f` when `w` does not contain it. */
  lemma NotInSuffix(pre: string, w: string, f: string)
    requires !Contains(w, f)
    ensures forall j :: |pre| <= j <= |pre + w| ==> !OccursAt(pre + w, j, f)
  {
    forall j | |pre| <= j <= |pre + w| ensures !OccursAt(pre + w, j, f) {
      OccursAfter(pre, w, j - |pre|, f);
    }
  }

  /** `f` starts at `|a|` in `a + f + rest`. */
  lemma OccursHere(a: string, f: string, rest: string)
    ensures OccursAt(a + f + rest, |a|, f)
  {
    assert a + f + rest == a + (f + rest);
    OccursAfter(a, f + rest, 0, f);
    OccursAtSlice(f + rest, 0, f);
    assert (f + rest)[..|f|] == f;
  }

  /** Before `|a|`, the start rule does not match when `a` lacks the filler's first character. */
  lemma NoStartBefore(a: string, rest: string, f: string)
    requires f != [] && f[0] !in a && (rest != [] ==> rest[0] != f[0])
    ensures forall j :: 0 <= j < |a| ==> !ValidHit(a + rest, AtStart(f), j)
  {
    NotInPrefix(a, rest, f);
    forall k | 1 <= k <= |a| ensures !OccursAt(a + rest, k, f) {
      if k == |a| {
        if rest != [] {
          assert (a + rest)[k] == rest[0];
        }
      }
    }
  }

  /** Before `|a|`, the end rule does not match when `a` lacks the filler's first character. */
  lemma NoEndBefore(a: string, rest: string, f: string)
    requires f != [] && f[0] !in a
    ensures forall j :: 0 <= j < |a| ==> !ValidHit(a + rest, AtEnd(f), j)
  {
    NotInPrefix(a, rest, f);
  }

  /** Inside `w`, neither filler rule matches when `w` does not contain the filler. */
  lemma NoFillerIn(pre: string, w: string, f: string)
    requires !Contains(w, f)
    ensures forall j :: |pre| <= j <= |pre + w| ==> !ValidHit(pre + w, AtStart(f), j) && !ValidHit(pre + w, AtEnd(f), j)
  {
    NotInSuffix(pre, w, f);
  }

  lemma SentenceFillerHit(a: string, e: char, f: string, c: char, w: string)
    requires IsSentenceEnd(e) && IsListComma(c) && f != [] && f[0] != e
    ensures AtStart(f)(a + [e] + f + [c] + w, |a|) == Some(Hit(|f| + 2, [e]))
  {
    var s := a + [e] + f + [c] + w;
    OccursHere(a + [e], f, [c] + w);
    assert s == a + [e] + f + ([c] + w);
    assert s[|a|] == e && s[|a| + 1 + |f|] == c;
    assert s[0] != f[0] || |a| > 0;
  }

  /**
   * A filler after a sentence end is deleted together with the comma after it; the
   * sentence end stays.
   */
  lemma SentenceFillerBefore(a: string, e: char, f: string, c: char, w: string)
    requires f != [] && f[0] !in a && f[0] != e
    ensures ReplaceGlobal(a + [e] + f + [c] + w, AtStart(f))
            == a + ReplaceFrom(a + [e] + f + [c] + w, AtStart(f), |a|)
  {
    var s := a + [e] + f + [c] + w;
    assert s == a + ([e] + f + [c] + w);
    NoStartBefore(a, [e] + f + [c] + w, f);
    NoHitSpan(s, AtStart(f), 0, |a|);
    assert s[0..|a|] == a;
  }

  lemma SentenceFillerAfter(a: string, e: char, f: string, c: char, w: string)
    requires !Contains(w, f)
    ensures ReplaceFrom(a + [e] + f + [c] + w, AtStart(f), |a| + |f| + 2) == w
  {
    var pre := a + [e] + f + [c];
    var s := pre + w;
    NotInSuffix(pre, w, f);
    forall j | |pre| <= j <= |s| ensures !ValidHit(s, AtStart(f), j) {
      assert !OccursAt(s, j, f);
      if j < |s| {
        assert !OccursAt(s, j + 1, f);
      }
    }
    NoHitIdentity(s, AtStart(f), |pre|);
    assert s[|pre|..] == w;
  }

  lemma SentenceFillerStep(a: string, e: char, f: string, c: char, w: string)
    requires IsSentenceEnd(e) && IsListComma(c) && f != [] && f[0] != e
    ensures ReplaceFrom(a + [e] + f + [c] + w, AtStart(f), |a|)
            == [e] + ReplaceFrom(a + [e] + f + [c] + w, AtStart(f), |a| + |f| + 2)
  {
    SentenceFillerHit(a, e, f, c, w);
  }

  /**
   * A filler after a sentence end is deleted together with the comma after it; the
   * sentence end stays.
   */
  lemma FillerAfterSentence(a: string, e: char, f: string, c: char, w: string)
    requires IsSentenceEnd(e) && IsListComma(c) && f != []
    requires f[0] !in a && f[0] != e && !Contains(w, f)
    ensures ReplaceGlobal(a + [e] + f + [c] + w, AtStart(f)) == a + [e] + w
  {
    SentenceFillerBefore(a, e, f, c, w);
    SentenceFillerStep(a, e, f, c, w);
    SentenceFillerAfter(a, e, f, c, w);
  }

  lemma ClosingFillerHit(a: string, f: string, c: char, w: string)
    requires IsFillerEnd(c)
    ensures ReplaceFrom(a + f + [c] + w, AtEnd(f), |a|)
            == [c] + ReplaceFrom(a + f + [c] + w, AtEnd(f), |a| + |f| + 1)
  {
    var s := a + f + [c] + w;
    OccursHere(a, f, [c] + w);
    assert s == a + f + ([c] + w);
    assert s[|a| + |f|] == c;
    assert AtEnd(f)(s, |a|) == Some(Hit(|f| + 1, [c]));
  }

  lemma ClosingFillerBefore(a: string, f: string, c: char, w: string)
    requires f != [] && f[0] !in a
    ensures ReplaceGlobal(a + f + [c] + w, AtEnd(f)) == a + ReplaceFrom(a + f + [c] + w, AtEnd(f), |a|)
  {
    var s := a + f + [c] + w;
    assert s == a + (f + [c] + w);
    NoEndBefore(a, f + [c] + w, f);
    NoHitSpan(s, AtEnd(f), 0, |a|);
    assert s[0..|a|] == a;
  }

  lemma ClosingFillerAfter(a: string, f: string, c: char, w: string)
    requires !Contains(w, f)
    ensures ReplaceFrom(a + f + [c] + w, AtEnd(f), |a| + |f| + 1) == w
  {
    var pre := a + f + [c];
    NoFillerIn(pre, w, f);
    NoHitIdentity(pre + w, AtEnd(f), |pre|);
    assert (pre + w)[|pre|..] == w;
  }

  /** A filler before ，。！？」』 is deleted and the mark stays. */
  lemma ClosingFiller(a: string, f: string, c: char, w: string)
    requires IsFillerEnd(c) && f != [] && f[0] !in a && !Contains(w, f)
    ensures ReplaceGlobal(a + f + [c] + w, AtEnd(f)) == a + [c] + w
  {
    ClosingFillerBefore(a, f, c, w);
    ClosingFillerHit(a, f, c, w);
    ClosingFillerAfter(a, f, c, w);
  }

  /** A filler ending the text is deleted. */
  lemma FinalFiller(a: string, f: string)
    requires f != [] && f[0] !in a
    ensures ReplaceGlobal(a + f, AtEnd(f)) == a
  {
    var s := a + f;
    var m := AtEnd(f);
    NotInPrefix(a, f, f);
    assert forall j :: 0 <= j < |a| ==> !ValidHit(s, m, j);
    NoHitSpan(s, m, 0, |a|);
    assert s[..|a|] == a;
    OccursHere(a, f, []);
    assert s == a + f + [];
    assert m(s, |a|) == Some(Hit(|f|, []));
    assert !ValidHit(s, m, |s|);
  }

  /** Text without `f` has no `，f，` either. */
  lemma BetweenAbsent(s: string, f: string)
    requires !Contains(s, f)
    ensures !Contains(s, Between(f))
  {
    if Contains(s, Between(f)) {
      var k :| 0 <= k <= |s| && OccursAt(s, k, Between(f));
      assert Between(f) == "，" + (f + "，");
      assert OccursAt(s, k + 1, f + "，");
      OccursPrefix(s, k + 1, f, "，");
    }
  }

  /** A filler that does not occur leaves the text alone. */
  lemma FillerAbsent(s: string, f: string)
    requires !Contains(s, f)
    ensures ReplaceGlobal(s, AtStart(f)) == s && ReplaceGlobal(s, AtEnd(f)) == s
    ensures ReplaceAll(s, Between(f), "，") == s
    ensures DropFiller(s, f) == s
  {
    forall j | 0 <= j <= |s| ensures !ValidHit(s, AtStart(f), j) && !ValidHit(s, AtEnd(f), j) {
      assert !OccursAt(s, j, f);
      if j < |s| {
        assert !OccursAt(s, j + 1, f);
      }
    }
    NoHitIdentity(s, AtStart(f), 0);
    NoHitIdentity(s, AtEnd(f), 0);
    BetweenAbsent(s, f);
    ReplaceAllAbsent(s, Between(f), "，");
  }

  // ---------------------------------------------------------------------------
  // Text the later steps leave alone

  predicate NoSpace(s: string) {
    forall k :: 0 <= k < |s| ==> !IsSpace(s[k])
  }

  /** No ，。！？ is directly repeated. */
  predicate NoDoubleMark(s: string) {
    forall k :: 0 <= k < |s| - 1 ==> !(s[k] in "，。！？" && s[k] == s[k + 1])
  }

  /** No character equals the one `n` places further on, within reach of a repeated word. */
  predicate NoEcho(s: string, n: nat) {
    forall i :: 0 <= i && i + n < |s| && i + 2 * n <= |s| ==> s[i] != s[i + n]
  }

  lemma RepeatAbsent(s: string, n: nat)
    requires n > 0 && NoSpace(s) && NoEcho(s, n)
    ensures ReplaceGlobal(s, Repeat(n)) == s
  {
    forall j | 0 <= j <= |s| ensures !ValidHit(s, Repeat(n), j) {
      if j + n <= |s| {
        var e := RunEnd(s, j + n, IsSpace);
        assert e == j + n;
        var w := s[j..j + n];
        OccursAtSlice(s, e, w);
        if e + n <= |s| {
          assert s[j] != s[e] && s[e..e + n][0] == s[e] && w[0] == s[j];
        }
      }
    }
    NoHitIdentity(s, Repeat(n), 0);
  }

  /** Text without whitespace and without echoes at any word length loses no repeated word. */
  lemma {:induction false} DropRepeatsAbsent(s: string, n: nat)
    requires NoSpace(s) && forall k :: 2 <= k <= n ==> NoEcho(s, k)
    ensures DropRepeats(s, n) == s
    decreases n
  {
    if n >= 2 {
      RepeatAbsent(s, n);
      DropRepeatsAbsent(s, n - 1);
    }
  }

  lemma SingleMarks(s: string, c: char)
    requires c in "，。！？" && NoDoubleMark(s)
    ensures ReplaceGlobal(s, Run(Is(c), 2, [c])) == s
  {
    forall k | 0 <= k < |s| ensures RunEnd(s, k, Is(c)) - k < 2 {
      if s[k] == c && k + 1 < |s| {
        assert s[k + 1] != c;
        assert RunEnd(s, k + 1, Is(c)) == k + 1;
      }
    }
    RunAbsent(s, Is(c), 2, [c]);
  }

  lemma SpacesAbsent(s: string)
    requires NoSpace(s)
    ensures Trim(TightAfter(TightBefore(Squash(s)))) == s
  {
    assert NoRunOf(s, IsSpace, 2);
    RunAbsent(s, IsSpace, 2, " ");
    NoHitIdentity(s, SpaceBefore(IsClosingMark), 0);
    NoHitIdentity(s, SpaceAfter(IsOpeningMark), 0);
    TrimOfTrimmed(s);
  }

  /** Text without whitespace and without doubled ，。！？ passes the clean-up unchanged. */
  lemma CleanUpAbsent(s: string)
    requires NoSpace(s) && NoDoubleMark(s)
    ensures Trim(TightAfter(TightBefore(Squash(CollapseMarks(s))))) == s
  {
    SingleMarks(s, '，');
    SingleMarks(s, '。');
    SingleMarks(s, '！');
    SingleMarks(s, '？');
    SpacesAbsent(s);
  }

  /** Every key of the colloquial table contains 下 and is at least three characters long. */
  lemma OverlappingAbsent(s: string)
    requires '下' !in s || |s| < 3
    ensures Substitution.ApplyAll(s, Overlapping) == s
  {
    OverlappingKeysAbsent(s);
    Substitution.ApplyAllAbsent(s, Overlapping);
  }

  lemma OverlappingKeysAbsent(s: string)
    requires '下' !in s || |s| < 3
    ensures forall e :: e in Overlapping ==> !Contains(s, e.0)
  {
    forall e | e in Overlapping ensures !Contains(s, e.0) {
      var k :| 0 <= k < |Overlapping| && Overlapping[k] == e;
      OverlappingKey(k);
      if '下' !in s {
        Missing(s, e.0, '下');
      } else {
        TooLong(s, e.0);
      }
    }
  }

  lemma OverlappingKey(k: nat)
    requires k < |Overlapping|
    ensures '下' in Overlapping[k].0 && |Overlapping[k].0| >= 3
  {
    var key := Overlapping[k].0;
    assert key[|key| - 1] == '下';
  }

  lemma LongestFirstOne(w: string)
    ensures LongestFirst([w]) == [w] && LongestFirst([]) == []
  {
    assert [w][..0] == [];
    assert SortDesc([w][..0], Length) == [];
    assert InsertDesc(w, [], Length) == [w];
  }

  // ---------------------------------------------------------------------------
  // Examples

  lemma TableFirstEntry()
    ensures ReplaceAll("等一下下", "一下下", "一下") == "等一下"
  {
    var s := "等一下下";
    var m := Literal("一下下", "一下");
    LiteralHit(s, "一下下", "一下", 0);
    LiteralHit(s, "一下下", "一下", 1);
    LiteralHit(s, "一下下", "一下", 4);
    OccursAtSlice(s, 1, "一下下");
    assert s[1..4] == "一下下";
    assert ReplaceFrom(s, m, 1) == "一下" + ReplaceFrom(s, m, 4);
  }

  lemma TableRest()
    ensures Substitution.ApplyAll("等一下", Overlapping[1..]) == "等一下"
  {
    var u := "等一下";
    forall e | e in Overlapping[1..] ensures !Contains(u, e.0) {
      var k :| 1 <= k < |Overlapping| && Overlapping[k] == e;
      OverlappingKey(k);
      TooLong(u, e.0);
    }
    Substitution.ApplyAllAbsent(u, Overlapping[1..]);
  }

  lemma TableApplied()
    ensures Substitution.ApplyAll("等一下下", Overlapping) == "等一下"
  {
    var t := "等一下下";
    Substitution.ApplyAllConcat(t, Overlapping[..1], Overlapping[1..]);
    assert Overlapping[..1] + Overlapping[1..] == Overlapping;
    assert Overlapping[..1][..0] == [];
    TableFirstEntry();
    assert Substitution.ApplyAll(t, Overlapping[..1]) == "等一下";
    TableRest();
  }

  /** With an empty dictionary only the table and the repeated-word rule act. */
  lemma ReduceWithEmpty(t: string)
    ensures Reduce(t, Empty) == DropRepeats(Substitution.ApplyAll(t, Overlapping), 8)
  {
    LongestFirstOne([]);
  }

  /** The colloquial table turns "等一下下" into "等一下". */
  lemma TableExample()
    ensures Spec("等一下下", Empty) == "等一下"
  {
    TableReduced();
    ShortSettled();
    SpecFromReduce("等一下下", Empty, "等一下");
  }

  lemma TableReduced()
    ensures Reduce("等一下下", Empty) == "等一下"
  {
    var u := "等一下";
    ReduceWithEmpty("等一下下");
    TableApplied();
    ShortSettled();
    DropRepeatsAbsent(u, 8);
  }

  lemma ShortSettled()
    ensures NoSpace("等一下") && NoDoubleMark("等一下")
    ensures forall k :: 2 <= k <= 8 ==> NoEcho("等一下", k)
  {
  }

  lemma DeleteOnceBefore(a: string, pat: string, b: string)
    requires pat != [] && pat[0] !in a
    ensures ReplaceAll(a + pat + b, pat, []) == a + ReplaceFrom(a + pat + b, Literal(pat, []), |a|)
  {
    var s := a + pat + b;
    var m := Literal(pat, []);
    assert s == a + (pat + b);
    NotInPrefix(a, pat + b, pat);
    forall j | 0 <= j < |a| ensures !ValidHit(s, m, j) {
      LiteralHit(s, pat, [], j);
    }
    NoHitSpan(s, m, 0, |a|);
    assert s[0..|a|] == a;
  }

  lemma DeleteOnceAt(a: string, pat: string, b: string)
    requires pat != []
    ensures ReplaceFrom(a + pat + b, Literal(pat, []), |a|)
            == ReplaceFrom(a + pat + b, Literal(pat, []), |a| + |pat|)
  {
    OccursHere(a, pat, b);
    LiteralHit(a + pat + b, pat, [], |a|);
  }

  lemma DeleteOnceAfter(a: string, pat: string, b: string)
    requires !Contains(b, pat)
    ensures ReplaceFrom(a + pat + b, Literal(pat, []), |a| + |pat|) == b
  {
    var s := a + pat + b;
    var m := Literal(pat, []);
    NotInSuffix(a + pat, b, pat);
    forall j | |a + pat| <= j <= |s| ensures !ValidHit(s, m, j) {
      LiteralHit(s, pat, [], j);
    }
    NoHitIdentity(s, m, |a + pat|);
    assert s[|a + pat|..] == b;
  }

  /** Deleting a pattern that occurs once, at a known place. */
  lemma DeleteOnce(a: string, pat: string, b: string)
    requires pat != [] && pat[0] !in a && !Contains(b, pat)
    ensures ReplaceAll(a + pat + b, pat, []) == a + b
  {
    DeleteOnceBefore(a, pat, b);
    DeleteOnceAt(a, pat, b);
    DeleteOnceAfter(a, pat, b);
  }

  lemma DoubledPatternStep()
    ensures ReplaceAll("這個的的確確是真的的", "的的", "的") == "這個的確確是真的"
  {
    var s := "這個的的確確是真的的";
    var m := Literal("的的", "的");
    DoubledMisses();
    NoHitSpan(s, m, 0, 2);
    DoubledHit(2);
    NoHitSpan(s, m, 4, 8);
    DoubledHit(8);
    LiteralHit(s, "的的", "的", 10);
    assert ReplaceFrom(s, m, 10) == [];
    assert s[0..2] == "這個" && s[4..8] == "確確是真";
  }

  lemma DoubledMisses()
    ensures forall j :: 0 <= j < 2 || 4 <= j < 8 ==> !ValidHit("這個的的確確是真的的", Literal("的的", "的"), j)
  {
    var s := "這個的的確確是真的的";
    forall j | 0 <= j < 2 || 4 <= j < 8 ensures !ValidHit(s, Literal("的的", "的"), j) {
      LiteralHit(s, "的的", "的", j);
      assert s[j] != '的';
    }
  }

  lemma DoubledHit(j: nat)
    requires j == 2 || j == 8
    ensures var s := "這個的的確確是真的的";
      ValidHit(s, Literal("的的", "的"), j) && Literal("的的", "的")(s, j).value == Hit(2, "的")
  {
    var s := "這個的的確確是真的的";
    LiteralHit(s, "的的", "的", j);
    OccursAtSlice(s, j, "的的");
    assert s[j..j + 2] == "的的";
  }

  /** The five reduction steps, given one by one. */
  lemma ReduceSteps(t: string, d: Lists, a: string, b: string, c: string, e: string)
    requires DropPhrases(t, d.redundantPhrases) == a
    requires DropFillers(a, LongestFirst(d.fillerWords)) == b
    requires HalvePatterns(b, LongestFirst(d.patterns)) == c
    requires Substitution.ApplyAll(c, Overlapping) == e
    ensures Reduce(t, d) == DropRepeats(e, 8)
  {
  }

  /** When the reduction leaves text the clean-up does not touch, that text is the result. */
  lemma SpecFromReduce(t: string, d: Lists, r: string)
    requires t != [] && Reduce(t, d) == r && NoSpace(r) && NoDoubleMark(r)
    ensures Spec(t, d) == r
  {
    CleanUpAbsent(r);
  }

  lemma NoListNoChange(t: string)
    ensures DropPhrases(t, []) == t && DropFillers(t, LongestFirst([])) == t
    ensures HalvePatterns(t, LongestFirst([])) == t
  {
    LongestFirstOne([]);
  }

  lemma OnePattern(t: string, p: string)
    ensures HalvePatterns(t, LongestFirst([p])) == ReplaceAll(t, p, Half(p))
  {
    LongestFirstOne(p);
    assert [p][..0] == [];
  }

  lemma OnePhrase(t: string, p: string)
    ensures DropPhrases(t, [p]) == ReplaceAll(t, p, [])
  {
    assert [p][..0] == [];
  }

  lemma OneFiller(t: string, f: string)
    ensures DropFillers(t, LongestFirst([f])) == DropFiller(t, f)
  {
    LongestFirstOne(f);
    assert [f][..0] == [];
  }

  /** Text the table, the repeated-word rule and the clean-up all leave alone. */
  predicate Settled(w: string) {
    '下' !in w && NoSpace(w) && NoDoubleMark(w) && forall k :: 2 <= k <= 8 ==> NoEcho(w, k)
  }

  /** Steps 3 to 9 leave settled text alone. */
  lemma SettledTail(t: string, d: Lists, b: string, w: string)
    requires t != [] && d.patterns == [] && Settled(w)
    requires DropFillers(DropPhrases(t, d.redundantPhrases), LongestFirst(d.fillerWords)) == w
    ensures Spec(t, d) == w
  {
    NoListNoChange(w);
    OverlappingAbsent(w);
    DropRepeatsAbsent(w, 8);
    CleanUpAbsent(w);
  }

  /** With only a pattern list, the pattern's halving is all that happens to settled output. */
  lemma PatternOnly(t: string, p: string, u: string)
    requires t != [] && ReplaceAll(t, p, Half(p)) == u && Settled(u)
    ensures Spec(t, Lists([], [p], [])) == u
  {
    NoListNoChange(t);
    OnePattern(t, p);
    OverlappingAbsent(u);
    DropRepeatsAbsent(u, 8);
    CleanUpAbsent(u);
  }

  lemma DoubledPatternSettled()
    ensures Settled("這個的確確是真的")
  {
    var u := "這個的確確是真的";
    forall k | 2 <= k <= 8 ensures NoEcho(u, k) {
      forall i | 0 <= i && i + k < |u| && i + 2 * k <= |u| ensures u[i] != u[i + k] {
        assert (k == 2 && i <= 4) || (k == 3 && i <= 2) || (k == 4 && i == 0);
      }
    }
  }

  /** With "的的" among the patterns, "這個的的確確是真的的" loses both doubled 的. */
  lemma DoubledPatternExample()
    ensures Spec("這個的的確確是真的的", Lists([], ["的的"], [])) == "這個的確確是真的"
  {
    DoubledPatternStep();
    DoubledPatternSettled();
    HalfOfDouble();
    PatternOnly("這個的的確確是真的的", "的的", "這個的確確是真的");
  }

  lemma HalfOfDouble()
    ensures Half("的的") == "的"
  {
  }

  /**
   * A sentence opening with a filler and a comma, then a redundant phrase, keeps only
   * what follows the phrase.
   */
  lemma OpeningFillerAndPhrase(f: string, p: string, w: string)
    requires f != [] && p != [] && p[0] !in f + "，"
    requires !Contains(w, f) && !Contains(w, p) && Settled(w)
    ensures Spec(f + "，" + p + w, Lists([f], [], [p])) == w
  {
    var t := f + "，" + p + w;
    OnePhrase(t, p);
    DeleteOnce(f + "，", p, w);
    OneFiller(f + "，" + w, f);
    OpeningFiller(f, '，', w);
    assert f + ['，'] + w == f + "，" + w;
    FillerAbsent(w, f);
    SettledTail(t, Lists([f], [], [p]), f + "，" + w, w);
  }

  lemma DistinctSettled(w: string)
    requires '下' !in w && NoSpace(w)
    requires forall a, b :: 0 <= a < b < |w| ==> w[a] != w[b]
    ensures Settled(w)
  {
  }

  /**
   * The source's own redundancy test: with 其實 as a filler and 我覺得 as a redundant
   * phrase, "其實，我覺得這個想法很好。" becomes "這個想法很好。".
   */
  lemma FillerTestExample()
    ensures Spec("其實，我覺得這個想法很好。", Lists(["其實"], [], ["我覺得"])) == "這個想法很好。"
  {
    var w := "這個想法很好。";
    FillerTestText();
    Missing(w, "其實", '其');
    Missing(w, "我覺得", '我');
    DistinctSettled(w);
    OpeningFillerAndPhrase("其實", "我覺得", w);
  }

  lemma FillerTestText()
    ensures "其實" + "，" + "我覺得" + "這個想法很好。" == "其實，我覺得這個想法很好。"
  {
  }

  lemma BetweenStart(f: string)
    requires f != [] && f[0] != '，' && !IsSentenceEnd(f[0])
    ensures ReplaceGlobal(Between(f), AtStart(f)) == Between(f)
  {
    var t := Between(f);
    forall j | 0 <= j <= |t| ensures !ValidHit(t, AtStart(f), j) {
      OccursAtSlice(t, 0, f);
      OccursAtSlice(t, j + 1, f);
      if j == 1 {
        assert t[1] == f[0];
      }
    }
    NoHitIdentity(t, AtStart(f), 0);
  }

  lemma BetweenEnd(f: string)
    requires f != [] && f[0] != '，'
    ensures ReplaceGlobal(Between(f), AtEnd(f)) == "，，"
  {
    TooLong([], f);
    ClosingFiller("，", f, '，', []);
    assert "，" + f + ['，'] + [] == Between(f);
    assert "，" + ['，'] + [] == "，，";
  }

  lemma BetweenFillers(f: string)
    requires f != [] && f[0] != '，' && !IsSentenceEnd(f[0])
    ensures DropFillers(Between(f), LongestFirst([f])) == "，，"
  {
    OneFiller(Between(f), f);
    BetweenStart(f);
    BetweenEnd(f);
    TooLong("，，", Between(f));
    ReplaceAllAbsent("，，", Between(f), "，");
  }

  lemma CollapseCommas()
    ensures CollapseMarks("，，") == "，"
  {
    var s := "，，";
    var m := Run(Is('，'), 2, "，");
    assert RunEnd(s, 0, Is('，')) == 2;
    assert !ValidHit(s, m, 2);
    assert ReplaceGlobal(s, m) == "，";
    SingleMarks("，", '。');
    SingleMarks("，", '！');
    SingleMarks("，", '？');
  }

  /** A filler standing alone between two commas leaves one comma: "，F，" becomes "，". */
  lemma StandaloneFiller(f: string)
    requires f != [] && f[0] != '，' && !IsSentenceEnd(f[0])
    ensures Spec(Between(f), Lists([f], [], [])) == "，"
  {
    StandaloneReduced(f);
    CommasCleaned();
  }

  lemma StandaloneReduced(f: string)
    requires f != [] && f[0] != '，' && !IsSentenceEnd(f[0])
    ensures Reduce(Between(f), Lists([f], [], [])) == "，，"
  {
    var t := Between(f);
    NoListNoChange(t);
    BetweenFillers(f);
    NoListNoChange("，，");
    OverlappingAbsent("，，");
    ReduceSteps(t, Lists([f], [], []), t, "，，", "，，", "，，");
    CommasSettled();
    DropRepeatsAbsent("，，", 8);
  }

  lemma CommasSettled()
    ensures NoSpace("，，") && forall k :: 2 <= k <= 8 ==> NoEcho("，，", k)
  {
  }

  lemma CommasCleaned()
    ensures Trim(TightAfter(TightBefore(Squash(CollapseMarks("，，"))))) == "，"
  {
    CollapseCommas();
    SpacesAbsent("，");
  }
}
